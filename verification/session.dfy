/** SessionHandler of the server, and the ContinuousBuffer under it: cutting a stream of chunks into requests. */
module Sessions {
  import opened Wrappers

  const OPEN := '{' as int
  const CLOSE := '}' as int

  /** ---- Braces ---- */

  function Change(c: int): int {
    if c == OPEN then 1 else if c == CLOSE then -1 else 0
  }

  /** Opening braces less closing ones. */
  function Depth(s: seq<int>): int {
    if s == [] then 0 else Depth(s[..|s| - 1]) + Change(s[|s| - 1])
  }

  /** The greatest depth of a prefix. */
  function MaxDepth(s: seq<int>): nat {
    if s == [] then 0
    else
      var m := MaxDepth(s[..|s| - 1]);
      if Depth(s) > m then Depth(s) else m
  }

  /** No prefix closes more than it opens. */
  predicate Nested(s: seq<int>) {
    s == [] || (Nested(s[..|s| - 1]) && Depth(s) >= 0)
  }

  /** All that was opened is closed, and something was. */
  predicate Complete(s: seq<int>) {
    Depth(s) == 0 && MaxDepth(s) > 0
  }

  lemma Push(s: seq<int>, c: int)
    ensures Depth(s + [c]) == Depth(s) + Change(c)
    ensures MaxDepth(s + [c]) == if Depth(s + [c]) > MaxDepth(s) then Depth(s + [c]) else MaxDepth(s)
    ensures Nested(s + [c]) <==> Nested(s) && Depth(s + [c]) >= 0
  {
    assert (s + [c])[..|s|] == s;
  }

  lemma {:induction false} NestedPrefix(s: seq<int>, t: seq<int>)
    requires Nested(s + t)
    ensures Nested(s)
    decreases |t|
  {
    if t == [] {
      assert s + t == s;
    } else {
      assert (s + t)[..|s + t| - 1] == s + t[..|t| - 1];
      NestedPrefix(s, t[..|t| - 1]);
    }
  }

  /** ---- The buffer ---- */

  class ContinuousBuffer {
    var buffer: array<int>
    var limit: nat
    var start: nat
    var used: nat

    ghost predicate Valid()
      reads this, buffer
    {
      start + used <= buffer.Length
    }

    /** The bytes held. */
    ghost function Bytes(): seq<int>
      requires Valid()
      reads this, buffer
    {
      buffer[start..start + used]
    }

    /** How many bytes can be held at once. */
    ghost function Room(): nat
      reads this, buffer
    {
      if buffer.Length < limit then limit else buffer.Length
    }

    constructor (size: nat, limit: nat)
      ensures Valid() && Bytes() == [] && fresh(buffer) && Room() == (if size < limit then limit else size)
    {
      buffer := new int[size](i => 0);
      this.limit := limit;
      start, used := 0, 0;
    }

    /** Moves the bytes held to the front. */
    method Shift()
      requires Valid()
      modifies this`start, buffer
      ensures Valid() && start == 0 && Bytes() == old(Bytes())
    {
      ghost var was := buffer[..];
      forall i | 0 <= i < used {
        buffer[i] := buffer[start + i];
      }
      assert buffer[0..used] == was[start..start + used] by {
        assert forall i | 0 <= i < used :: buffer[..][i] == was[start + i];
      }
      assert was[start..start + used] == old(Bytes());
      start := 0;
    }

    /** `vector::resize`, to more bytes. */
    method Enlarge(size: nat)
      requires Valid() && size >= buffer.Length
      modifies this`buffer
      ensures Valid() && Bytes() == old(Bytes()) && fresh(buffer) && buffer.Length == size
    {
      var larger := new int[size](i => 0);
      forall i | 0 <= i < buffer.Length {
        larger[i] := buffer[i];
      }
      assert larger[start..start + used] == buffer[start..start + used] by {
        assert forall i | start <= i < start + used :: larger[i] == buffer[i];
      }
      buffer := larger;
    }

    /** `push` appends the bytes exactly when there is room for them, and otherwise keeps what it holds. */
    method Push(data: seq<int>) returns (ok: bool)
      requires Valid()
      modifies this, buffer
      ensures Valid() && Room() == old(Room()) && limit == old(limit) && (buffer == old(buffer) || fresh(buffer))
      ensures ok <==> |old(Bytes())| + |data| <= old(Room())
      ensures Bytes() == if ok then old(Bytes()) + data else old(Bytes())
    {
      var size := |data|;
      if start + used + size > buffer.Length {
        if start > 0 {
          Shift();
        }
        if start + used + size > buffer.Length {
          if start + used + size > limit {
            return false;
          }
          Enlarge(start + used + size);
        }
      }
      Append(data);
      ok := true;
    }

    method Append(data: seq<int>)
      requires Valid() && start + used + |data| <= buffer.Length
      modifies this`used, buffer
      ensures Valid() && Bytes() == old(Bytes()) + data
    {
      ghost var was := buffer[start..start + used];
      forall i | 0 <= i < |data| {
        buffer[start + used + i] := data[i];
      }
      assert buffer[start..start + used] == was;
      assert buffer[start + used..start + used + |data|] == data;
      assert buffer[start..start + used + |data|] == was + data;
      used := used + |data|;
    }

    method Pop(size: nat) returns (popped: nat)
      requires Valid()
      modifies this`start, this`used
      ensures Valid() && popped == (if size > |old(Bytes())| then |old(Bytes())| else size) && Bytes() == old(Bytes())[popped..]
    {
      popped := if size > used then used else size;
      start := start + popped;
      used := used - popped;
    }

    method Reset()
      modifies this`start, this`used
      ensures Valid() && Bytes() == []
    {
      start, used := 0, 0;
    }
  }

  /** ---- The handler ---- */

  datatype CallbackResult = Continue | Abort

  /** What the request processor does when it is called. */
  datatype Reply = Response(text: seq<int>) | Threw

  /** What a chunk leads to: the bytes held afterwards, the result, the request handed over, and the response. */
  datatype Outcome = Outcome(held: seq<int>, result: CallbackResult, called: Maybe<seq<int>>, response: seq<int>)

  /** What becomes of a chunk that arrives when some bytes are held. */
  function OnChunk(held: seq<int>, room: nat, chunk: seq<int>, reply: Reply): Outcome {
    var all := held + chunk;
    if |all| > room || !Nested(all) then Outcome([], Abort, None, [])
    else if !Complete(all) then Outcome(all, Continue, None, [])
    else match reply
      case Threw => Outcome([], Abort, Some(all), [])
      case Response(text) => Outcome([], Continue, Some(all), text)
  }

  /** What is held between chunks is nested and not complete. */
  predicate Pending(held: seq<int>) {
    Nested(held) && !Complete(held)
  }

  lemma NothingPending()
    ensures Pending([])
  {
  }

  lemma {:induction false} DepthNatural(s: seq<int>)
    requires Nested(s)
    ensures 0 <= Depth(s) <= MaxDepth(s)
  {
  }

  class SessionHandler {
    const buffer: ContinuousBuffer
    var jsonDepth: nat
    var jsonDepthMax: nat

    /** The depths are those of the bytes held. */
    ghost predicate Valid()
      reads this, buffer, buffer.buffer
    {
      && buffer.Valid() && Pending(buffer.Bytes()) && |buffer.Bytes()| <= buffer.Room()
      && jsonDepth == Depth(buffer.Bytes()) && jsonDepthMax == MaxDepth(buffer.Bytes())
    }

    constructor (bufferSize: nat, bufferLimit: nat)
      ensures Valid() && buffer.Bytes() == [] && buffer.Room() == (if bufferSize < bufferLimit then bufferLimit else bufferSize)
      ensures fresh(buffer) && fresh(buffer.buffer)
    {
      buffer := new ContinuousBuffer(bufferSize, bufferLimit);
      jsonDepth, jsonDepthMax := 0, 0;
    }

    /** The loop over the new bytes; false where it throws. */
    method Count(chunk: seq<int>, ghost held: seq<int>) returns (ok: bool)
      requires Nested(held) && jsonDepth == Depth(held) && jsonDepthMax == MaxDepth(held)
      modifies this`jsonDepth, this`jsonDepthMax
      ensures ok <==> Nested(held + chunk)
      ensures ok ==> jsonDepth == Depth(held + chunk) && jsonDepthMax == MaxDepth(held + chunk)
    {
      hide Depth, MaxDepth, Nested;
      assert held + chunk[..0] == held;
      for i := 0 to |chunk|
        invariant Nested(held + chunk[..i]) && jsonDepth == Depth(held + chunk[..i]) && jsonDepthMax == MaxDepth(held + chunk[..i])
      {
        DepthNatural(held + chunk[..i]);
        Push(held + chunk[..i], chunk[i]);
        assert held + chunk[..i] + [chunk[i]] == held + chunk[..i + 1];
        if chunk[i] == OPEN {
          jsonDepth := jsonDepth + 1;
          if jsonDepth > jsonDepthMax {
            jsonDepthMax := jsonDepth;
          }
        } else if chunk[i] == CLOSE {
          if jsonDepth == 0 {
            assert held + chunk == held + chunk[..i + 1] + chunk[i + 1..];
            if Nested(held + chunk) {
              NestedPrefix(held + chunk[..i + 1], chunk[i + 1..]);
            }
            return false;
          }
          jsonDepth := jsonDepth - 1;
        }
      }
      assert held + chunk[..|chunk|] == held + chunk;
      ok := true;
    }

    /** Handing over a complete request, with a terminator after it when there is room for one. */
    method Deliver(reply: Reply) returns (ok: bool, response: seq<int>, request: seq<int>)
      requires buffer.Valid()
      modifies this`jsonDepthMax, buffer, buffer.buffer
      ensures buffer.Valid() && buffer.Room() == old(buffer.Room()) && (buffer.buffer == old(buffer.buffer) || fresh(buffer.buffer))
      ensures request == old(buffer.Bytes()) && (ok <==> reply.Response?) && response == if ok then reply.text else []
      ensures ok ==> buffer.Bytes() == [] && jsonDepthMax == 0
    {
      var posCur := buffer.used;
      ghost var all := buffer.Bytes();
      var terminated := buffer.Push([0]);
      ghost var held := buffer.Bytes();
      assert |all| == posCur && held == if terminated then all + [0] else all;
      assert held[..posCur] == all;
      request := buffer.buffer[buffer.start..buffer.start + posCur];
      assert request == held[..posCur];
      response := [];
      ok := reply.Response?;
      if ok {
        response := reply.text;
        var popped := buffer.Pop(posCur + 1);
        assert popped == |held| && held[popped..] == [];
        jsonDepthMax := 0;
      }
    }

    /** What follows an exception. */
    method Recover()
      modifies this, buffer`start, buffer`used
      ensures Valid() && buffer.Bytes() == []
    {
      NothingPending();
      NoDepth();
      buffer.Reset();
      jsonDepth, jsonDepthMax := 0, 0;
    }

    /** `process`, for a chunk; reply is what the request processor would do. */
    method Process(chunk: seq<int>, reply: Reply) returns (result: CallbackResult, response: seq<int>, called: Maybe<seq<int>>)
      requires Valid()
      modifies this, buffer, buffer.buffer
      ensures Valid() && buffer.Room() == old(buffer.Room()) && (buffer.buffer == old(buffer.buffer) || fresh(buffer.buffer))
      ensures Outcome(buffer.Bytes(), result, called, response) == OnChunk(old(buffer.Bytes()), old(buffer.Room()), chunk, reply)
      ensures var all := old(buffer.Bytes()) + chunk;
              && (called.Some? <==> |all| <= old(buffer.Room()) && Nested(all) && Complete(all))
              && (called.None? ==> (result == Abort <==> |all| > old(buffer.Room()) || !Nested(all)))
      ensures called.Some? ==> called.value == old(buffer.Bytes()) + chunk && buffer.Bytes() == []
      ensures called.Some? && reply.Response? ==> result == Continue && response == reply.text
      ensures called.Some? && reply.Threw? ==> result == Abort
      ensures called.None? || reply.Threw? ==> response == []
      ensures result == Abort ==> buffer.Bytes() == []
      ensures called.None? && result == Continue ==> buffer.Bytes() == old(buffer.Bytes()) + chunk
    {
      hide Depth, MaxDepth, Nested;
      ghost var held := buffer.Bytes();
      response, called := [], None;
      NothingPending();
      NoDepth();
      var pushed := buffer.Push(chunk);
      if !pushed {
        Recover();
        return Abort, response, None;
      }
      if chunk == [] {
        assert held + chunk == held;
        return Continue, response, None;
      }
      var counted := Count(chunk, held);
      if !counted {
        Recover();
        return Abort, response, None;
      }
      if jsonDepth != 0 || jsonDepthMax == 0 {
        return Continue, response, None;
      }
      var ok, text, request := Deliver(reply);
      if !ok {
        Recover();
        return Abort, response, Some(request);
      }
      return Continue, text, Some(request);
    }
  }

  lemma NoDepth()
    ensures Depth([]) == 0 && MaxDepth([]) == 0
  {
  }

  /** ---- Streams of chunks ---- */

  /** A request first closes all it opened at its last byte. */
  ghost predicate IsRequest(r: seq<int>) {
    Nested(r) && Complete(r) && forall k | 0 <= k < |r| :: !Complete(r[..k])
  }

  function Join(chunks: seq<seq<int>>): seq<int> {
    if chunks == [] then [] else chunks[0] + Join(chunks[1..])
  }

  /** What chunks lead to: the bytes held at the end, the requests handed over, the response to each of them, and
      whether the session was aborted. */
  datatype Fed = Fed(held: seq<int>, calls: seq<seq<int>>, responses: seq<seq<int>>, aborted: bool)

  /** The processor's answers to requests, in order. */
  function Answers(rs: seq<seq<int>>, answer: seq<int> -> Reply): (ts: seq<seq<int>>)
    requires forall i | 0 <= i < |rs| :: answer(rs[i]).Response?
    ensures |ts| == |rs| && forall i | 0 <= i < |rs| :: ts[i] == answer(rs[i]).text
  {
    seq(|rs|, i requires 0 <= i < |rs| => answer(rs[i]).text)
  }

  /** Chunks one after the other; the processor's replies depend on what it is given. */
  function Feed(held: seq<int>, room: nat, chunks: seq<seq<int>>, answer: seq<int> -> Reply): Fed
    decreases |chunks|
  {
    if chunks == [] then Fed(held, [], [], false)
    else
      var o := OnChunk(held, room, chunks[0], answer(held + chunks[0]));
      var rest := Feed(o.held, room, chunks[1..], answer);
      Fed(rest.held, (if o.called.Some? then [o.called.value] else []) + rest.calls,
          (if o.called.Some? then [o.response] else []) + rest.responses, o.result.Abort? || rest.aborted)
  }

  lemma {:induction false} FeedJoin(held: seq<int>, room: nat, a: seq<seq<int>>, b: seq<seq<int>>, answer: seq<int> -> Reply)
    ensures var x := Feed(held, room, a, answer);
            var y := Feed(x.held, room, b, answer);
            Feed(held, room, a + b, answer) == Fed(y.held, x.calls + y.calls, x.responses + y.responses, x.aborted || y.aborted)
    decreases |a|
  {
    hide OnChunk;
    if a == [] {
      assert a + b == b;
      var y := Feed(held, room, b, answer);
      assert [] + y.calls == y.calls && [] + y.responses == y.responses;
    } else {
      assert (a + b)[1..] == a[1..] + b;
      var o := OnChunk(held, room, a[0], answer(held + a[0]));
      FeedJoin(o.held, room, a[1..], b, answer);
      var x := Feed(o.held, room, a[1..], answer);
      var y := Feed(x.held, room, b, answer);
      var c := if o.called.Some? then [o.called.value] else [];
      var t := if o.called.Some? then [o.response] else [];
      assert c + (x.calls + y.calls) == c + x.calls + y.calls;
      assert t + (x.responses + y.responses) == t + x.responses + y.responses;
    }
  }

  /** Empty chunks after a request change nothing. */
  lemma {:induction false} EmptyChunks(room: nat, chunks: seq<seq<int>>, answer: seq<int> -> Reply)
    requires Join(chunks) == []
    ensures Feed([], room, chunks, answer) == Fed([], [], [], false)
    decreases |chunks|
  {
    hide Complete;
    if chunks != [] {
      assert chunks[0] == [] && Join(chunks[1..]) == [];
      NothingPending();
      assert [] + chunks[0] == [];
      EmptyChunks(room, chunks[1..], answer);
    }
  }

  /** A request whose first k bytes are held, and the rest of it in chunks. */
  lemma {:induction false} RestOfRequest(r: seq<int>, k: nat, room: nat, chunks: seq<seq<int>>, answer: seq<int> -> Reply)
    requires IsRequest(r) && k < |r| <= room && Join(chunks) == r[k..] && answer(r).Response?
    ensures Feed(r[..k], room, chunks, answer) == Fed([], [r], [answer(r).text], false)
    decreases |chunks|
  {
    hide Complete, Nested;
    var c, rest := chunks[0], chunks[1..];
    var j := k + |c|;
    assert c + Join(rest) == r[k..];
    Advance(r, k, c, Join(rest));
    PrefixNested(r, j);
    if j < |r| {
      RestOfRequest(r, j, room, rest, answer);
      assert [] + [r] == [r] && [] + [answer(r).text] == [answer(r).text];
    } else {
      EmptyChunks(room, rest, answer);
      assert [r] + [] == [r] && [answer(r).text] + [] == [answer(r).text];
    }
  }

  lemma Advance(r: seq<int>, k: nat, c: seq<int>, rest: seq<int>)
    requires k <= |r| && c + rest == r[k..]
    ensures k + |c| <= |r| && r[..k] + c == r[..k + |c|] && rest == r[k + |c|..] && (k + |c| == |r| ==> r[..k + |c|] == r && rest == [])
  {
    assert r == r[..k] + (c + rest);
    assert r[k..][..|c|] == c;
  }

  lemma PrefixNested(r: seq<int>, j: nat)
    requires IsRequest(r) && j <= |r|
    ensures Nested(r[..j]) && (j < |r| ==> !Complete(r[..j]))
  {
    hide Nested, Complete;
    assert r == r[..j] + r[j..];
    NestedPrefix(r[..j], r[j..]);
  }

  /** The chunks of several requests, each cut in its own way. */
  ghost predicate Cuts(rs: seq<seq<int>>, cuts: seq<seq<seq<int>>>) {
    |rs| == |cuts| && forall i | 0 <= i < |rs| :: Join(cuts[i]) == rs[i]
  }

  function All(cuts: seq<seq<seq<int>>>): seq<seq<int>> {
    if cuts == [] then [] else cuts[0] + All(cuts[1..])
  }

  /** EVERY STREAM OF REQUESTS, EACH CUT INTO CHUNKS IN ANY WAY, is handed over request by request, byte for byte, and
      leaves the session as it was; the client is sent the processor's answers, in order. */
  lemma {:induction false} Framed(rs: seq<seq<int>>, cuts: seq<seq<seq<int>>>, room: nat, answer: seq<int> -> Reply)
    requires Cuts(rs, cuts) && forall i | 0 <= i < |rs| :: IsRequest(rs[i]) && |rs[i]| <= room && answer(rs[i]).Response?
    ensures Feed([], room, All(cuts), answer) == Fed([], rs, Answers(rs, answer), false)
    decreases |rs|
  {
    hide IsRequest, Feed, Join, Answers;
    if rs == [] {
      FeedNothing([], room, answer);
    } else {
      NotEmpty(rs[0]);
      assert rs[0][..0] == [] && rs[0][0..] == rs[0];
      RestOfRequest(rs[0], 0, room, cuts[0], answer);
      Framed(rs[1..], cuts[1..], room, answer);
      FeedJoin([], room, cuts[0], All(cuts[1..]), answer);
      assert [rs[0]] + rs[1..] == rs;
      AnswersFirst(rs, answer);
    }
  }

  lemma AnswersFirst(rs: seq<seq<int>>, answer: seq<int> -> Reply)
    requires rs != [] && forall i | 0 <= i < |rs| :: answer(rs[i]).Response?
    ensures [answer(rs[0]).text] + Answers(rs[1..], answer) == Answers(rs, answer)
  {
  }

  lemma FeedNothing(held: seq<int>, room: nat, answer: seq<int> -> Reply)
    ensures Feed(held, room, [], answer) == Fed(held, [], [], false)
  {
  }

  lemma NotEmpty(r: seq<int>)
    requires IsRequest(r)
    ensures r != []
  {
    NoDepth();
  }

  /** A new handler fed with chunks. */
  method Serve(bufferSize: nat, bufferLimit: nat, chunks: seq<seq<int>>, answer: seq<int> -> Reply) returns (calls: seq<seq<int>>, responses: seq<seq<int>>, aborted: bool)
    ensures var f := Feed([], if bufferSize < bufferLimit then bufferLimit else bufferSize, chunks, answer);
            calls == f.calls && responses == f.responses && aborted == f.aborted
  {
    hide Depth, MaxDepth, Nested, OnChunk, Complete, Feed;
    var h := new SessionHandler(bufferSize, bufferLimit);
    calls, responses, aborted := [], [], false;
    ghost var room := h.buffer.Room();
    FeedNothing([], room, answer);
    assert chunks[..0] == [];
    for i := 0 to |chunks|
      invariant h.Valid() && h.buffer.Room() == room && fresh(h) && fresh(h.buffer) && fresh(h.buffer.buffer)
      invariant Feed([], room, chunks[..i], answer) == Fed(h.buffer.Bytes(), calls, responses, aborted)
    {
      ghost var held := h.buffer.Bytes();
      FeedJoin([], room, chunks[..i], [chunks[i]], answer);
      FeedOne(held, room, chunks[i], answer);
      assert chunks[..i] + [chunks[i]] == chunks[..i + 1];
      var bytes := h.buffer.buffer[h.buffer.start..h.buffer.start + h.buffer.used];
      var result, response, called := h.Process(chunks[i], answer(bytes + chunks[i]));
      calls := calls + if called.Some? then [called.value] else [];
      responses := responses + if called.Some? then [response] else [];
      aborted := aborted || result.Abort?;
    }
    assert chunks[..|chunks|] == chunks;
  }

  lemma FeedOne(held: seq<int>, room: nat, chunk: seq<int>, answer: seq<int> -> Reply)
    ensures var o := OnChunk(held, room, chunk, answer(held + chunk));
            Feed(held, room, [chunk], answer)
            == Fed(o.held, if o.called.Some? then [o.called.value] else [], if o.called.Some? then [o.response] else [], o.result.Abort?)
  {
    hide OnChunk;
    assert [chunk][1..] == [];
  }

  /** ---- What the framing keeps apart ---- */

  lemma {:induction false} JoinAdd(a: seq<seq<int>>, b: seq<seq<int>>)
    ensures Join(a + b) == Join(a) + Join(b)
    decreases |a|
  {
    if a == [] {
      assert a + b == b;
    } else {
      assert (a + b)[1..] == a[1..] + b;
      JoinAdd(a[1..], b);
    }
  }

  /** After some chunk, what was held and what has arrived is t. */
  ghost predicate ChunkEnd(held: seq<int>, chunks: seq<seq<int>>, t: seq<int>) {
    exists n | 0 <= n <= |chunks| :: held + Join(chunks[..n]) == t
  }

  /** Every request ends where a chunk ends. */
  ghost predicate EndAtChunks(rs: seq<seq<int>>, chunks: seq<seq<int>>) {
    forall i | 0 <= i <= |rs| :: ChunkEnd([], chunks, Join(rs[..i]))
  }

  lemma NoneArrived(held: seq<int>, chunks: seq<seq<int>>)
    ensures ChunkEnd(held, chunks, held)
  {
    assert held + Join(chunks[..0]) == held;
  }

  /** The end of a chunk after the first, t, is one of all. */
  lemma ChunkEndLater(held: seq<int>, chunks: seq<seq<int>>, t: seq<int>)
    requires chunks != [] && ChunkEnd(held + chunks[0], chunks[1..], t)
    ensures ChunkEnd(held, chunks, t)
  {
    var n :| 0 <= n <= |chunks[1..]| && held + chunks[0] + Join(chunks[1..][..n]) == t;
    assert chunks[..n + 1][1..] == chunks[1..][..n];
    assert held + Join(chunks[..n + 1]) == held + chunks[0] + Join(chunks[1..][..n]);
  }

  /** The same, when what has arrived up to there was handed over. */
  lemma ChunkEndAfterCall(all: seq<int>, chunks: seq<seq<int>>, t: seq<int>)
    requires ChunkEnd([], chunks, t)
    ensures ChunkEnd(all, chunks, all + t)
  {
    var n :| 0 <= n <= |chunks| && [] + Join(chunks[..n]) == t;
    assert all + Join(chunks[..n]) == all + t;
  }

  /** A chunk is added to what is held, handed over with it, or dropped with it. */
  lemma ChunkKept(held: seq<int>, room: nat, chunk: seq<int>, reply: Reply)
    ensures var o := OnChunk(held, room, chunk, reply);
            if o.called.Some? then o.called.value == held + chunk && o.held == [] else o.held == held + chunk || o.held == []
  {
    hide Nested, Complete;
  }

  /** No more is handed over than arrives. */
  lemma {:induction false} CallsWithin(held: seq<int>, room: nat, chunks: seq<seq<int>>, answer: seq<int> -> Reply)
    ensures |Join(Feed(held, room, chunks, answer).calls)| <= |held| + |Join(chunks)|
    decreases |chunks|
  {
    hide OnChunk;
    if chunks != [] {
      var reply := answer(held + chunks[0]);
      var o := OnChunk(held, room, chunks[0], reply);
      ChunkKept(held, room, chunks[0], reply);
      CallsWithin(o.held, room, chunks[1..], answer);
      JoinAdd(if o.called.Some? then [o.called.value] else [], Feed(o.held, room, chunks[1..], answer).calls);
      if o.called.Some? {
        JoinOne(o.called.value);
      }
    }
  }

  lemma JoinCons(s: seq<int>, rest: seq<seq<int>>)
    ensures Join([s] + rest) == s + Join(rest)
  {
    assert ([s] + rest)[1..] == rest;
  }

  lemma JoinNone()
    ensures Join([]) == []
  {
  }

  lemma JoinOne(s: seq<int>)
    ensures Join([s]) == s
  {
    assert [s][1..] == [];
    assert s + [] == s;
  }

  /** When everything is handed over, every request handed over ends where a chunk ends. */
  lemma {:induction false} CallsEnd(held: seq<int>, room: nat, chunks: seq<seq<int>>, answer: seq<int> -> Reply, i: nat)
    requires var calls := Feed(held, room, chunks, answer).calls;
             Join(calls) == held + Join(chunks) && 0 < i <= |calls|
    ensures ChunkEnd(held, chunks, Join(Feed(held, room, chunks, answer).calls[..i]))
    decreases |chunks|
  {
    hide OnChunk, ChunkEnd;
    var all, rest, reply := held + chunks[0], chunks[1..], answer(held + chunks[0]);
    var o := OnChunk(held, room, chunks[0], reply);
    var calls := Feed(o.held, room, rest, answer).calls;
    ChunkKept(held, room, chunks[0], reply);
    assert held + Join(chunks) == all + Join(rest);
    if o.called.Some? {
      FirstCall(all, calls, Join(rest), i);
      if i == 1 {
        NoneArrived(all, rest);
      } else {
        CallsEnd([], room, rest, answer, i - 1);
        ChunkEndAfterCall(all, rest, Join(calls[..i - 1]));
      }
    } else {
      assert [] + calls == calls;
      CallsWithin(o.held, room, rest, answer);
      assert o.held == all;
      CallsEnd(all, room, rest, answer, i);
    }
    ChunkEndLater(held, chunks, Join(Feed(held, room, chunks, answer).calls[..i]));
  }

  lemma FirstCall(all: seq<int>, calls: seq<seq<int>>, rest: seq<int>, i: nat)
    requires Join([all] + calls) == all + rest && 0 < i <= 1 + |calls|
    ensures Join(calls) == [] + rest && Join(([all] + calls)[..i]) == all + Join(calls[..i - 1]) && (i == 1 ==> all + Join(calls[..i - 1]) == all)
  {
    hide Join;
    JoinCons(all, calls);
    assert Join([all] + calls)[|all|..] == Join(calls) == rest;
    assert ([all] + calls)[..i] == [all] + calls[..i - 1];
    JoinCons(all, calls[..i - 1]);
    if i == 1 {
      assert calls[..0] == [];
      JoinNone();
      assert all + [] == all;
    }
  }

  /** When every request ends where a chunk ends, each is handed over on its own. */
  lemma {:induction false} HandedOverApart(rs: seq<seq<int>>, chunks: seq<seq<int>>, room: nat, answer: seq<int> -> Reply)
    requires forall i | 0 <= i < |rs| :: IsRequest(rs[i]) && |rs[i]| <= room && answer(rs[i]).Response?
    requires Join(chunks) == Join(rs) && EndAtChunks(rs, chunks)
    ensures Feed([], room, chunks, answer) == Fed([], rs, Answers(rs, answer), false)
    decreases |rs|
  {
    hide IsRequest, Feed, Answers, Join;
    if rs == [] {
      JoinNone();
      EmptyChunks(room, chunks, answer);
    } else {
      var r := rs[0];
      NotEmpty(r);
      assert rs[..1] == [r];
      assert [r] + rs[1..] == rs;
      JoinCons(r, rs[1..]);
      JoinOne(r);
      assert ChunkEnd([], chunks, Join(rs[..1]));
      var n :| 0 <= n <= |chunks| && [] + Join(chunks[..n]) == r;
      var a, b := chunks[..n], chunks[n..];
      assert r[..0] == [] && r[0..] == r;
      RestOfRequest(r, 0, room, a, answer);
      assert a + b == chunks;
      JoinAdd(a, b);
      assert Join(b) == Join(rs)[|r|..] == Join(rs[1..]);
      forall i | 0 <= i <= |rs[1..]| ensures ChunkEnd([], b, Join(rs[1..][..i])) {
        LaterEnd(rs, chunks, n, i);
      }
      HandedOverApart(rs[1..], b, room, answer);
      FeedJoin([], room, a, b, answer);
      assert [r] + rs[1..] == rs;
      AnswersFirst(rs, answer);
    }
  }

  lemma LaterEnd(rs: seq<seq<int>>, chunks: seq<seq<int>>, n: nat, i: nat)
    requires rs != [] && EndAtChunks(rs, chunks) && n <= |chunks| && Join(chunks[..n]) == rs[0] && i < |rs|
    ensures ChunkEnd([], chunks[n..], Join(rs[1..][..i]))
  {
    var b := chunks[n..];
    assert rs[..i + 1][1..] == rs[1..][..i];
    assert ChunkEnd([], chunks, Join(rs[..i + 1]));
    var m :| 0 <= m <= |chunks| && [] + Join(chunks[..m]) == Join(rs[..i + 1]);
    assert Join(rs[..i + 1]) == rs[0] + Join(rs[1..][..i]);
    if m <= n {
      assert chunks[..n] == chunks[..m] + chunks[m..n];
      JoinAdd(chunks[..m], chunks[m..n]);
      assert Join(rs[1..][..i]) == [];
      NoneArrived([], b);
    } else {
      assert chunks[..m] == chunks[..n] + b[..m - n];
      JoinAdd(chunks[..n], b[..m - n]);
      var y, z := Join(b[..m - n]), Join(rs[1..][..i]);
      assert (rs[0] + y)[|rs[0]|..] == y && (rs[0] + z)[|rs[0]|..] == z;
      assert [] + y == z;
    }
  }

  /** REQUESTS ARE KEPT APART EXACTLY WHEN EACH OF THEM ENDS WHERE SOME CHUNK ENDS, however else the stream is cut; then
      each is answered, in order. */
  lemma KeptApartIff(rs: seq<seq<int>>, chunks: seq<seq<int>>, room: nat, answer: seq<int> -> Reply)
    requires forall i | 0 <= i < |rs| :: IsRequest(rs[i]) && |rs[i]| <= room && answer(rs[i]).Response?
    requires Join(chunks) == Join(rs)
    ensures Feed([], room, chunks, answer).calls == rs <==> EndAtChunks(rs, chunks)
    ensures EndAtChunks(rs, chunks) ==> Feed([], room, chunks, answer) == Fed([], rs, Answers(rs, answer), false)
  {
    hide IsRequest, Feed;
    if Feed([], room, chunks, answer).calls == rs {
      assert [] + Join(chunks) == Join(chunks);
      forall i | 0 <= i <= |rs| ensures ChunkEnd([], chunks, Join(rs[..i])) {
        if i == 0 {
          NoneArrived([], chunks);
        } else {
          CallsEnd([], room, chunks, answer, i);
        }
      }
    }
    if EndAtChunks(rs, chunks) {
      HandedOverApart(rs, chunks, room, answer);
    }
  }

  /** BEING A REQUEST IS EXACTLY BEING HANDED OVER WHOLE HOWEVER IT IS CUT. */
  lemma KeptWholeIff(r: seq<int>, room: nat, answer: seq<int> -> Reply)
    requires |r| <= room && answer(r).Response?
    ensures IsRequest(r) <==> forall chunks | Join(chunks) == r :: Feed([], room, chunks, answer) == Fed([], [r], [answer(r).text], false)
  {
    hide Nested, Complete, Feed, OnChunk;
    if IsRequest(r) {
      forall chunks | Join(chunks) == r ensures Feed([], room, chunks, answer) == Fed([], [r], [answer(r).text], false) {
        NotEmpty(r);
        assert r[..0] == [] && r[0..] == r;
        RestOfRequest(r, 0, room, chunks, answer);
      }
    } else {
      if Nested(r) && Complete(r) {
        var k :| 0 <= k < |r| && Complete(r[..k]);
        CutEarly(r, k, room, answer);
      } else {
        WholeFails(r, room, answer);
      }
    }
  }

  lemma CutEarly(r: seq<int>, k: nat, room: nat, answer: seq<int> -> Reply)
    requires answer(r).Response? && k < |r| <= room && Nested(r) && Complete(r[..k])
    ensures exists chunks :: Join(chunks) == r && Feed([], room, chunks, answer) != Fed([], [r], [answer(r).text], false)
  {
    hide Nested, Complete;
    var a, b := r[..k], r[k..];
    assert a + b == r;
    NestedPrefix(a, b);
    assert [] + a == a;
    assert [a, b][1..] == [b];
    JoinOne(b);
    assert Join([a, b]) == r;
    assert OnChunk([], room, a, answer([] + a)).called == Some(a);
    assert Feed([], room, [a, b], answer).calls[0] == a;
  }

  lemma WholeFails(r: seq<int>, room: nat, answer: seq<int> -> Reply)
    requires answer(r).Response? && !(Nested(r) && Complete(r))
    ensures exists chunks :: Join(chunks) == r && Feed([], room, chunks, answer) != Fed([], [r], [answer(r).text], false)
  {
    hide Nested, Complete;
    assert [] + r == r;
    JoinOne(r);
    FeedOne([], room, r, answer);
  }

  /** ---- What the framing does not keep apart ---- */

  lemma {:induction false} DepthJoin(a: seq<int>, b: seq<int>)
    ensures Depth(a + b) == Depth(a) + Depth(b) && MaxDepth(a + b) >= MaxDepth(a)
    ensures Nested(a) && Depth(a) >= 0 && Nested(b) ==> Nested(a + b)
    decreases |b|
  {
    if b == [] {
      assert a + b == a;
    } else {
      var c := b[..|b| - 1];
      assert a + b == a + c + [b[|b| - 1]];
      Push(a + c, b[|b| - 1]);
      DepthJoin(a, c);
    }
  }

  /** Two requests in one chunk are handed over as one. */
  lemma HandedOverTogether(r: seq<int>, r': seq<int>, room: nat, reply: Reply)
    requires IsRequest(r) && IsRequest(r') && |r + r'| <= room
    ensures OnChunk([], room, r + r', reply).called == Some(r + r')
  {
    hide Depth, MaxDepth, Nested;
    DepthJoin(r, r');
    assert [] + (r + r') == r + r';
  }

  /** Braces in strings count: the first three bytes of {"}":1} are taken for a request. */
  lemma BraceInString(room: nat, reply: Reply)
    requires room >= 3
    ensures var chunk := [OPEN, '"' as int, CLOSE]; OnChunk([], room, chunk, reply).called == Some(chunk)
  {
    hide Depth, MaxDepth, Nested;
    NothingPending();
    NoDepth();
    Push([], OPEN);
    Push([] + [OPEN], '"' as int);
    Push([] + [OPEN] + ['"' as int], CLOSE);
    assert [] + [OPEN, '"' as int, CLOSE] == [] + [OPEN] + ['"' as int] + [CLOSE] == [OPEN, '"' as int, CLOSE];
  }
}
