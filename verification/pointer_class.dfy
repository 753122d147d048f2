/** GenericPointer of pointer.h: parsing into a buffer of names, and writing the names back. */
module PointerClass {
  import opened Pointers
  import opened Decimals
  import opened Wrappers
  import Utf8

  /** A token: where its name lies in the buffer, and its index. */
  datatype Token = Token(offset: nat, length: nat, index: nat)

  /** The tokens stand for the names, in the first part of the buffer. */
  ghost predicate Stands(tokens: seq<Token>, buf: seq<int>, names: seq<seq<int>>, used: nat) {
    && |tokens| == |names| && used <= |buf|
    && forall k | 0 <= k < |tokens| :: StandsFor(tokens[k], buf, names[k], used)
  }

  ghost predicate StandsFor(t: Token, buf: seq<int>, name: seq<int>, used: nat)
    requires used <= |buf|
  {
    t.offset + t.length < used && buf[t.offset..t.offset + t.length] == name && buf[t.offset + t.length] == 0 && t.index == TokenIndex(name)
  }

  /** Writing behind what is used changes no name. */
  lemma StandsKept(tokens: seq<Token>, buf: seq<int>, buf': seq<int>, names: seq<seq<int>>, used: nat)
    requires Stands(tokens, buf, names, used) && |buf'| == |buf| && buf'[..used] == buf[..used]
    ensures Stands(tokens, buf', names, used)
  {
    hide TokenIndex;
    forall k | 0 <= k < |tokens|
      ensures StandsFor(tokens[k], buf', names[k], used)
    {
      var t := tokens[k];
      assert buf'[t.offset..t.offset + t.length] == buf'[..used][t.offset..t.offset + t.length];
      assert buf[t.offset..t.offset + t.length] == buf[..used][t.offset..t.offset + t.length];
      assert buf'[..used][t.offset + t.length] == buf[..used][t.offset + t.length];
    }
  }

  lemma StandsPush(tokens: seq<Token>, buf: seq<int>, names: seq<seq<int>>, used: nat, name: seq<int>)
    requires Stands(tokens, buf, names, used) && used + |name| < |buf|
    requires buf[used..used + |name|] == name && buf[used + |name|] == 0
    ensures Stands(tokens + [Token(used, |name|, TokenIndex(name))], buf, names + [name], used + |name| + 1)
  {
    hide TokenIndex;
    forall k | 0 <= k < |tokens|
      ensures StandsFor(tokens[k], buf, names[k], used + |name| + 1)
    {
      assert StandsFor(tokens[k], buf, names[k], used);
    }
  }

  /** ---- Percent-encoded characters ---- */

  lemma {:induction false} TripletsPush(src: seq<int>, i: nat, n: nat)
    ensures Triplets(src, i, n + 1) == if Triplets(src, i, n).None? || Triplet(src, i + 3 * n).None? then None
                                      else Some(Triplets(src, i, n).value + [Triplet(src, i + 3 * n).value])
    decreases n
  {
    hide Triplet;
    if n == 0 {
      TripletsOne(src, i);
    } else {
      TripletsPush(src, i + 3, n - 1);
      TripletsNext(src, i, n);
      TripletsNext(src, i, n - 1);
      if Triplet(src, i).Some? && Triplets(src, i + 3, n).Some? {
        var b, bs, c := Triplet(src, i).value, Triplets(src, i + 3, n - 1).value, Triplet(src, i + 3 * n).value;
        assert [b] + (bs + [c]) == [b] + bs + [c];
      }
    }
  }

  lemma TripletsNext(src: seq<int>, i: nat, n: nat)
    ensures Triplets(src, i, n + 1) == if Triplet(src, i).None? || Triplets(src, i + 3, n).None? then None
                                      else Some([Triplet(src, i).value] + Triplets(src, i + 3, n).value)
  {
    hide Triplet;
  }

  lemma TripletsOne(src: seq<int>, i: nat)
    ensures Triplets(src, i, 0) == Some([])
    ensures Triplets(src, i, 1) == if Triplet(src, i).None? then None else Some([Triplet(src, i).value])
    ensures Triplet(src, i).Some? ==> [] + [Triplet(src, i).value] == [Triplet(src, i).value]
  {
    TripletsNext(src, i, 0);
    if Triplet(src, i).Some? {
      assert [Triplet(src, i).value] + [] == [Triplet(src, i).value];
    }
  }

  lemma {:induction false} TripletsNone(src: seq<int>, i: nat, k: nat, n: nat)
    requires k <= n && Triplets(src, i, k).None?
    ensures Triplets(src, i, n).None?
    decreases n
  {
    hide Triplets, Triplet;
    if k < n {
      TripletsNone(src, i, k, n - 1);
      TripletsPush(src, i, n - 1);
    }
  }

  /** `Validate`, from percent-encoded bytes into the buffer; stopping at the first byte that cannot be read. */
  method Validate(src: seq<int>, i: nat, buffer: array<int>, at: nat) returns (ok: bool, len: nat)
    requires at < i <= |src| == buffer.Length
    modifies buffer
    ensures ok <==> PercentDecoded(src, i).Some?
    ensures ok ==> len == |PercentDecoded(src, i).value| && at + len <= |src| && buffer[at..at + len] == PercentDecoded(src, i).value
    ensures buffer[..at] == old(buffer[..at])
  {
    hide Triplet, Triplets, Utf8.GetRange, Utf8.Tails, Utf8.Allowed, Utf8.GoodTails;
    ok, len := false, 0;
    var first := Triplet(src, i);
    if first.None? {
      return;
    }
    buffer[at] := first.value;
    assert buffer[at..at + 1] == [first.value];
    if first.value < 0x80 {
      return true, 1;
    }
    var tails := Utf8.Tails(Utf8.GetRange(first.value));
    if tails.0 == 0 {
      return;
    }
    var result, k: nat := true, 0;
    ghost var bs: seq<int> := [];
    TripletsOne(src, i + 3);
    GoodNone(tails.1);
    while k < tails.0
      invariant k <= tails.0 && Triplets(src, i + 3, k) == Some(bs) && |bs| == k && Utf8.IsBytes(bs)
      invariant at + 1 + k < |src| && buffer[at..at + 1 + k] == [first.value] + bs
      invariant result <==> Utf8.GoodTails(bs, tails.1)
      invariant buffer[..at] == old(buffer[..at])
    {
      var next := Triplet(src, i + 3 + 3 * k);
      TripletsPush(src, i + 3, k);
      if next.None? {
        TripletsNone(src, i + 3, k + 1, tails.0);
        return;
      }
      buffer[at + 1 + k] := next.value;
      GoodPush(bs, tails.1, next.value);
      result := result && Utf8.Allowed(if k == 0 then tails.1 else 0x70, next.value);
      assert buffer[at..at + 2 + k] == buffer[at..at + 1 + k] + [next.value];
      bs := bs + [next.value];
      k := k + 1;
    }
    ok, len := result, k + 1;
  }

  lemma GoodNone(mask: int)
    ensures Utf8.GoodTails([], mask)
  {
  }

  lemma GoodPush(bs: seq<int>, mask: int, b: int)
    requires Utf8.IsBytes(bs) && 0 <= b < 256
    ensures Utf8.IsBytes(bs + [b])
    ensures Utf8.GoodTails(bs + [b], mask) <==> Utf8.GoodTails(bs, mask) && Utf8.Allowed(if bs == [] then mask else 0x70, b)
  {
    hide Utf8.Allowed;
    assert (bs + [b])[|bs|] == b;
    if Utf8.GoodTails(bs + [b], mask) {
      forall i | 0 <= i < |bs|
        ensures Utf8.Allowed(if i == 0 then mask else 0x70, bs[i])
      {
        assert (bs + [b])[i] == bs[i];
      }
    }
  }

  /** ---- One name ---- */

  lemma DigitsPush(name: seq<int>, bytes: seq<int>)
    ensures AllDigits(name + bytes) <==> AllDigits(name) && AllDigits(bytes)
  {
    if AllDigits(name + bytes) {
      forall i | 0 <= i < |name|
        ensures IsDigit(name[i])
      {
        assert (name + bytes)[i] == name[i];
      }
      forall i | 0 <= i < |bytes|
        ensures IsDigit(bytes[i])
      {
        assert (name + bytes)[|name| + i] == bytes[i];
      }
    }
  }

  lemma DigitsOne(c: int)
    ensures AllDigits([c]) <==> IsDigit(c)
  {
    assert [c][0] == c;
  }

  /** An encoded character of more than one byte has no digits. */
  lemma LongNoDigits(src: seq<int>, i: nat)
    requires PercentDecoded(src, i).Some? && |PercentDecoded(src, i).value| != 1
    ensures !AllDigits(PercentDecoded(src, i).value)
  {
    hide Triplet, Triplets, Utf8.GetRange, Utf8.Tails, Utf8.GoodTails;
    var bs := PercentDecoded(src, i).value;
    assert !IsDigit(bs[0]);
  }

  /** One character of a name, with its escapes undone, written into the buffer; and whether it is a digit. */
  method ReadPiece(src: seq<int>, from: nat, fragment: bool, buffer: array<int>, at: nat)
    returns (ok: bool, i: nat, np: nat, digit: bool, code: ErrorCode)
    requires at < from < |src| == buffer.Length
    modifies buffer
    ensures ok <==> NextPiece(src, from, fragment).Piece?
    ensures ok ==> var p := NextPiece(src, from, fragment);
                   from < i == p.next <= |src| && at < np < i && buffer[at..np] == p.bytes && (digit <==> AllDigits(p.bytes))
    ensures !ok ==> NextPiece(src, from, fragment) == BadPiece(code, i)
    ensures buffer[..at] == old(buffer[..at])
  {
    hide PercentDecoded, AllDigits, NeedPercentEncode;
    var c := src[from];
    ok, i, np, digit, code := false, from, at, false, InvalidEscape;
    if fragment {
      if c == PERCENT {
        var valid, len := Validate(src, from, buffer, at);
        if !valid {
          code := InvalidPercentEncoding;
          return;
        }
        i := i + 3 * len - 1;
        if len == 1 {
          assert buffer[at..at + 1][0] == buffer[at];
          c := buffer[at];
        } else {
          LongNoDigits(src, from);
          ok, np, i := true, at + len, i + 1;
          return;
        }
      } else if NeedPercentEncode(c) {
        code := CharacterMustPercentEncode;
        return;
      }
    }
    i := i + 1;
    if c == TILDE {
      if i < |src| {
        c := src[i];
        if c == '0' as int {
          c := TILDE;
        } else if c == '1' as int {
          c := SLASH;
        } else {
          return;
        }
        i := i + 1;
      } else {
        return;
      }
    }
    DigitsOne(c);
    buffer[at] := c;
    assert buffer[at..at + 1] == [c];
    ok, np, digit := true, at + 1, IsDigit(c);
  }

  /** The loop over the characters of a name: it writes behind what it reads. */
  method ReadName(src: seq<int>, from: nat, fragment: bool, buffer: array<int>, at: nat)
    returns (ok: bool, i: nat, np: nat, isNumber: bool, code: ErrorCode)
    requires at < from <= |src| == buffer.Length
    modifies buffer
    ensures ok <==> ParseName(src, from, fragment, []).Name?
    ensures ok ==> var r := ParseName(src, from, fragment, []);
                   i == r.end && at <= np < i && buffer[at..np] == r.name && (isNumber <==> AllDigits(r.name))
    ensures !ok ==> ParseName(src, from, fragment, []) == BadName(code, i)
    ensures buffer[..at] == old(buffer[..at])
  {
    hide ParseName, NextPiece, AllDigits;
    i, np, isNumber, ok, code := from, at, true, true, InvalidEscape;
    ghost var name: seq<int> := [];
    NoDigits();
    while i < |src| && src[i] != SLASH
      invariant from <= i <= |src| && at <= np < i && ok
      invariant ParseName(src, from, fragment, []) == ParseName(src, i, fragment, name)
      invariant buffer[at..np] == name && buffer[..at] == old(buffer[..at])
      invariant isNumber <==> AllDigits(name)
      decreases |src| - i
    {
      NameGoes(src, i, fragment, name);
      ghost var was, p, start := buffer[..np], NextPiece(src, i, fragment), np;
      var digit;
      ok, i, np, digit, code := ReadPiece(src, i, fragment, buffer, np);
      Front(was, buffer[..], at, start);
      if !ok {
        return;
      }
      DigitsPush(name, p.bytes);
      isNumber := isNumber && digit;
      assert buffer[at..np] == buffer[at..start] + buffer[start..np];
      name := name + p.bytes;
    }
    NameEnds(src, i, fragment, name);
  }

  /** What is before a position is before every earlier one. */
  lemma Front(was: seq<int>, buf: seq<int>, at: nat, np: nat)
    requires at <= np <= |buf| && was == buf[..np]
    ensures was[at..] == buf[at..np] && was[..at] == buf[..at]
  {
  }

  lemma NoDigits()
    ensures AllDigits([])
  {
  }


  /** The digits of a name, as a 32-bit number. */
  method ReadIndex(name: seq<int>, allDigits: bool) returns (index: nat)
    requires allDigits <==> AllDigits(name)
    ensures index == TokenIndex(name)
  {
    hide AllDigits, Accumulate;
    var isNumber := allDigits;
    if |name| == 0 {
      isNumber := false;
    }
    if isNumber && |name| > 1 && name[0] == '0' as int {
      isNumber := false;
    }
    var n: nat := 0;
    if isNumber {
      var j: nat := 0;
      assert name[0..] == name;
      while j < |name|
        invariant j <= |name| && n < WIDTH && AllDigits(name[j..]) && Accumulate(name, 0) == Accumulate(name[j..], n)
      {
        AccumulateNext(name, j, n);
        var m := (n * 10 + (name[j] - '0' as int)) % WIDTH;
        if m < n {
          isNumber := false;
          break;
        }
        n := m;
        j := j + 1;
      }
      if isNumber {
        AccumulateEnd(name[j..], n);
      }
    }
    index := if isNumber then n else INVALID_INDEX;
  }

  lemma AccumulateNext(name: seq<int>, j: nat, n: nat)
    requires j < |name| && AllDigits(name[j..]) && n < WIDTH
    ensures AllDigits(name[j + 1..]) && IsDigit(name[j])
    ensures var m := (n * 10 + (name[j] - '0' as int)) % WIDTH;
            Accumulate(name[j..], n) == if m < n then None else Accumulate(name[j + 1..], m)
  {
    assert name[j..][0] == name[j] && name[j..][1..] == name[j + 1..];
  }

  lemma AccumulateEnd(digits: seq<int>, n: nat)
    requires digits == [] && n < WIDTH
    ensures Accumulate(digits, n) == Some(n)
  {
  }

  class GenericPointer {
    var nameBuffer: array<int>
    var tokens: seq<Token>
    var parseErrorCode: Maybe<ErrorCode>
    var parseErrorOffset: nat

    constructor ()
      ensures tokens == [] && parseErrorCode == None
    {
      nameBuffer := new int[0];
      tokens, parseErrorCode, parseErrorOffset := [], None, 0;
    }

    /** The names of the tokens, in the buffer. */
    ghost predicate Names(names: seq<seq<int>>)
      reads this, nameBuffer
    {
      Stands(tokens, nameBuffer[..], names, nameBuffer.Length)
    }

    /** `Parse` FINDS EXACTLY THE TOKENS OF THE TEXT, or reports its first error; names and their terminators never need
        more than the length of the text. */
    method Parse(source: seq<int>)
      modifies this
      ensures match Pointers.Parse(source)
              case Tokens(names) => parseErrorCode == None && Names(names)
              case Failed(code, offset) => parseErrorCode == Some(code) && parseErrorOffset == offset && tokens == []
      ensures fresh(nameBuffer) && nameBuffer.Length == |source|
    {
      hide ParseTokens, Stands, ParseName, TokenIndex, AllDigits;
      var buffer := new int[|source|](i => 0);
      nameBuffer, tokens := buffer, [];
      var i, fragment := 0, false;
      if |source| > 0 && source[i] == '#' as int {
        fragment := true;
        i := i + 1;
      }
      if i != |source| && source[i] != SLASH {
        parseErrorCode, parseErrorOffset := Some(TokenMustBeginWithSolidus), i;
        return;
      }
      var np: nat := 0;
      ghost var names: seq<seq<int>> := [];
      NoneStand(buffer[..]);
      while i < |source|
        invariant i <= |source| && np <= i && nameBuffer == buffer && (i < |source| ==> source[i] == SLASH)
        invariant Pointers.Parse(source) == ParseTokens(source, i, fragment, names)
        invariant Stands(tokens, buffer[..], names, np)
        decreases |source| - i
      {
        TokensGo(source, i, fragment, names);
        ghost var was := buffer[..];
        var ok, end, nameEnd, isNumber, code := ReadName(source, i + 1, fragment, buffer, np);
        StandsKept(tokens, was, buffer[..], names, np);
        if !ok {
          parseErrorCode, parseErrorOffset, tokens := Some(code), end, [];
          return;
        }
        ghost var name := ParseName(source, i + 1, fragment, []).name;
        was := buffer[..];
        buffer[nameEnd] := 0;
        assert buffer[..] == was[nameEnd := 0];
        StandsKept(tokens, was, buffer[..], names, np);
        assert buffer[np..nameEnd] == name;
        var index := ReadIndex(buffer[np..nameEnd], isNumber);
        assert buffer[..][np..np + |name|] == name;
        StandsPush(tokens, buffer[..], names, np, name);
        tokens := tokens + [Token(np, nameEnd - np, index)];
        names := names + [name];
        np := nameEnd + 1;
        i := end;
      }
      TokensEnd(source, i, fragment, names);
      StandsAll(tokens, buffer[..], names, np, buffer.Length);
      parseErrorCode := None;
    }
  }

  lemma NoneStand(buf: seq<int>)
    ensures Stands([], buf, [], 0)
  {
  }

  lemma StandsAll(tokens: seq<Token>, buf: seq<int>, names: seq<seq<int>>, used: nat, all: nat)
    requires Stands(tokens, buf, names, used) && used <= all <= |buf|
    ensures Stands(tokens, buf, names, all)
  {
    hide TokenIndex;
    forall k | 0 <= k < |tokens|
      ensures StandsFor(tokens[k], buf, names[k], all)
    {
      assert StandsFor(tokens[k], buf, names[k], used);
    }
  }

  lemma TokensGo(src: seq<int>, i: nat, fragment: bool, names: seq<seq<int>>)
    requires i < |src|
    ensures var r := ParseName(src, i + 1, fragment, []);
            ParseTokens(src, i, fragment, names)
            == if r.Name? then ParseTokens(src, r.end, fragment, names + [r.name]) else Failed(r.code, r.offset)
    ensures var r := ParseName(src, i + 1, fragment, []);
            r.Name? ==> r.end <= |src| && (r.end < |src| ==> src[r.end] == SLASH)
  {
    hide ParseName;
  }

  lemma TokensEnd(src: seq<int>, i: nat, fragment: bool, names: seq<seq<int>>)
    requires i == |src|
    ensures ParseTokens(src, i, fragment, names) == Tokens(names)
  {
  }

  /** ---- Writing ---- */

  /** `Stringify`: the loops over tokens and over their characters. */
  method Stringify(names: seq<seq<int>>, fragment: bool, os: seq<int>) returns (ok: bool, out: seq<int>)
    requires AllBytes(names)
    ensures ok <==> Stringified(names, fragment).Some?
    ensures ok ==> out == os + Stringified(names, fragment).value
  {
    hide Escaped, EscapedAll, Utf8.IsBytes;
    out := os;
    if fragment {
      out := out + ['#' as int];
    }
    ghost var done: seq<int> := [];
    ghost var start := out;
    assert names[0..] == names;
    for t := 0 to |names|
      invariant AllBytes(names[t..])
      invariant out == start + done
      invariant EscapedAll(names, fragment).Some? <==> EscapedAll(names[t..], fragment).Some?
      invariant EscapedAll(names, fragment).Some? ==> EscapedAll(names, fragment).value == done + EscapedAll(names[t..], fragment).value
    {
      EscapedAllNext(names, t, fragment);
      out := out + [SLASH];
      var written, more := WriteName(names[t], fragment);
      if !written {
        return false, out;
      }
      out := out + more;
      done := done + [SLASH] + more;
    }
    EscapedAllEnd(names[|names|..], fragment);
    ok := true;
  }

  lemma EscapedAllNext(names: seq<seq<int>>, t: nat, fragment: bool)
    requires t < |names| && AllBytes(names[t..])
    ensures AllBytes(names[t + 1..]) && Utf8.IsBytes(names[t])
    ensures var e := Escaped(names[t], fragment);
            && (EscapedAll(names[t..], fragment).Some? <==> e.Some? && EscapedAll(names[t + 1..], fragment).Some?)
            && (EscapedAll(names[t..], fragment).Some?
                ==> EscapedAll(names[t..], fragment).value == [SLASH] + e.value + EscapedAll(names[t + 1..], fragment).value)
  {
    hide Escaped;
    assert names[t..][0] == names[t] && names[t..][1..] == names[t + 1..];
  }

  lemma EscapedAllEnd(names: seq<seq<int>>, fragment: bool)
    requires names == []
    ensures EscapedAll(names, fragment) == Some([])
  {
  }

  /** The loop over the characters of a name. */
  method WriteName(name: seq<int>, fragment: bool) returns (ok: bool, out: seq<int>)
    requires Utf8.IsBytes(name)
    ensures ok <==> Escaped(name, fragment).Some?
    ensures ok ==> out == Escaped(name, fragment).value
  {
    hide Escaped, Utf8.IsBytes, NeedPercentEncode, Utf8.Decode, PercentAll;
    out := [];
    var j: nat := 0;
    assert name[0..] == name;
    while j < |name|
      invariant j <= |name| && Utf8.IsBytes(name[j..])
      invariant Escaped(name, fragment).Some? <==> Escaped(name[j..], fragment).Some?
      invariant Escaped(name, fragment).Some? ==> Escaped(name, fragment).value == out + Escaped(name[j..], fragment).value
      decreases |name| - j
    {
      EscapedNext(name, j, fragment, out);
      var c := name[j];
      if c == TILDE {
        out := out + [TILDE, '0' as int];
      } else if c == SLASH {
        out := out + [TILDE, '1' as int];
      } else if fragment && NeedPercentEncode(c) {
        var d := Utf8.Decode(name[j..]);
        if d.Invalid? || !(0 < d.length <= |name| - j) {
          return false, out;
        }
        SliceBytes(name, j, d.length);
        out := out + PercentAll(name[j..j + d.length]);
        j := j + d.length - 1;
      } else {
        out := out + [c];
      }
      j := j + 1;
    }
    EscapedEnd(name[j..], fragment);
    ok := true;
  }

  lemma SliceBytes(name: seq<int>, j: nat, n: nat)
    requires j + n <= |name| && Utf8.IsBytes(name[j..])
    ensures Utf8.IsBytes(name[j..j + n]) && name[j..][..n] == name[j..j + n] && |name[j..]| == |name| - j
  {
    assert name[j..][..n] == name[j..j + n];
  }

  lemma EscapedNext(name: seq<int>, j: nat, fragment: bool, out: seq<int>)
    requires j < |name| && Utf8.IsBytes(name[j..])
    ensures name[j..][0] == name[j]
    ensures var w := WriteNext(name[j..], fragment);
            if w.Unwritten? then Escaped(name[j..], fragment).None?
            else
              && 0 < w.count <= |name| - j && Utf8.IsBytes(name[j + w.count..])
              && (Escaped(name[j..], fragment).Some? <==> Escaped(name[j + w.count..], fragment).Some?)
              && (Escaped(name[j..], fragment).Some?
                  ==> out + Escaped(name[j..], fragment).value == out + w.out + Escaped(name[j + w.count..], fragment).value)
  {
    hide WriteNext;
    var w := WriteNext(name[j..], fragment);
    if w.Written? {
      var rest := Escaped(name[j + w.count..], fragment);
      assert name[j..][w.count..] == name[j + w.count..];
      if rest.Some? {
        assert out + (w.out + rest.value) == out + w.out + rest.value;
      }
    }
  }

  lemma EscapedEnd(name: seq<int>, fragment: bool)
    requires name == [] && Utf8.IsBytes(name)
    ensures Escaped(name, fragment) == Some([])
  {
  }

  /** Names written, and read back from what was written, are in the buffer again, each with its index. */
  method WriteAndParse(names: seq<seq<int>>, fragment: bool) returns (ok: bool, p: GenericPointer)
    requires AllBytes(names)
    ensures ok <==> !fragment || forall i | 0 <= i < |names| :: Utf8.IsBytes(names[i]) && IsText(names[i])
    ensures ok ==> p.parseErrorCode == None && p.Names(names)
  {
    hide Pointers.Parse, Stringified, IsText, Utf8.IsBytes, Stands;
    RoundTrip(names);
    var text;
    ok, text := Stringify(names, fragment, []);
    p := new GenericPointer();
    if ok {
      assert [] + Stringified(names, fragment).value == Stringified(names, fragment).value;
      p.Parse(text);
    }
  }
}
