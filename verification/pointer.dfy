/** pointer.h: the text of JSON Pointers, plain and as URI fragments (sections 3 and 6 of RFC 6901), written and read. */
module Pointers {
  import Utf8
  import opened Decimals
  import opened Wrappers

  const SLASH := '/' as int
  const TILDE := '~' as int
  const PERCENT := '%' as int
  const INVALID_INDEX := 0xFFFF_FFFF
  const WIDTH := 0x1_0000_0000

  datatype ErrorCode = TokenMustBeginWithSolidus | InvalidEscape | InvalidPercentEncoding | CharacterMustPercentEncode

  predicate NeedPercentEncode(c: int) {
    !('0' as int <= c <= '9' as int || 'A' as int <= c <= 'Z' as int || 'a' as int <= c <= 'z' as int
      || c == '-' as int || c == '.' as int || c == '_' as int || c == TILDE)
  }

  /** ---- Percent encoding ---- */

  function HexValue(c: int): Maybe<int>
  {
    if '0' as int <= c <= '9' as int then Some(c - '0' as int)
    else if 'A' as int <= c <= 'F' as int then Some(c - 'A' as int + 10)
    else if 'a' as int <= c <= 'f' as int then Some(c - 'a' as int + 10)
    else None
  }

  /** `PercentEncodeStream::Put` */
  function Percent(b: int): (r: seq<int>)
    requires 0 <= b < 256
    ensures |r| == 3
  {
    [PERCENT, HexDigit(b / 16), HexDigit(b % 16)]
  }

  /** `PercentDecodeStream::Take`, at a position of the source. */
  function Triplet(src: seq<int>, i: nat): (r: Maybe<int>)
    ensures r.Some? ==> 0 <= r.value < 256 && i + 3 <= |src|
  {
    if i + 3 > |src| || src[i] != PERCENT then None
    else match HexValue(src[i + 1])
      case None => None
      case Some(h) =>
        match HexValue(src[i + 2])
        case None => None
        case Some(l) => Some(h * 16 + l)
  }

  /** n triplets in a row. */
  function Triplets(src: seq<int>, i: nat, n: nat): (r: Maybe<seq<int>>)
    ensures r.Some? ==> |r.value| == n && Utf8.IsBytes(r.value) && (n > 0 ==> i + 3 * n <= |src|)
    decreases n
  {
    if n == 0 then Some([])
    else match Triplet(src, i)
      case None => None
      case Some(b) =>
        match Triplets(src, i + 3, n - 1)
        case None => None
        case Some(bs) => Some([b] + bs)
  }

  /** `UTF8::Validate` on percent-decoded bytes: one encoded character. */
  function PercentDecoded(src: seq<int>, i: nat): (r: Maybe<seq<int>>)
    ensures r.Some? ==> r.value != [] && Utf8.IsBytes(r.value) && i + 3 * |r.value| <= |src|
  {
    match Triplet(src, i)
    case None => None
    case Some(b) =>
      if b < 0x80 then Some([b])
      else
        var tails := Utf8.Tails(Utf8.GetRange(b));
        if tails.0 == 0 then None
        else match Triplets(src, i + 3, tails.0)
          case None => None
          case Some(bs) => if Utf8.GoodTails(bs, tails.1) then Some([b] + bs) else None
  }

  /** ---- Writing ---- */

  /** What is written for the start of a name, and how many of its bytes that covers. */
  datatype Written = Written(out: seq<int>, count: nat) | Unwritten

  function PercentAll(bs: seq<int>): (r: seq<int>)
    requires Utf8.IsBytes(bs)
    ensures |r| == 3 * |bs|
  {
    if bs == [] then [] else Percent(bs[0]) + PercentAll(bs[1..])
  }

  function WriteNext(name: seq<int>, fragment: bool): (w: Written)
    requires name != [] && Utf8.IsBytes(name)
    ensures w.Written? ==> 0 < w.count <= |name|
  {
    var c := name[0];
    if c == TILDE then Written([TILDE, '0' as int], 1)
    else if c == SLASH then Written([TILDE, '1' as int], 1)
    else if fragment && NeedPercentEncode(c) then
      match Utf8.Decode(name)
      case Invalid => Unwritten
      case Valid(_, n) => if 0 < n <= |name| then Written(PercentAll(name[..n]), n) else Unwritten
    else Written([c], 1)
  }

  /** A name, escaped. */
  function Escaped(name: seq<int>, fragment: bool): Maybe<seq<int>>
    requires Utf8.IsBytes(name)
    decreases |name|
  {
    if name == [] then Some([])
    else match WriteNext(name, fragment)
      case Unwritten => None
      case Written(out, n) =>
        match Escaped(name[n..], fragment)
        case None => None
        case Some(more) => Some(out + more)
  }

  ghost predicate AllBytes(names: seq<seq<int>>) {
    forall i | 0 <= i < |names| :: Utf8.IsBytes(names[i])
  }

  /** The names from the first to the k-th, each after a slash. */
  ghost function EscapedAll(names: seq<seq<int>>, fragment: bool): Maybe<seq<int>>
    requires AllBytes(names)
    decreases |names|
  {
    if names == [] then Some([])
    else match Escaped(names[0], fragment)
      case None => None
      case Some(e) =>
        match EscapedAll(names[1..], fragment)
        case None => None
        case Some(more) => Some([SLASH] + e + more)
  }

  /** `Stringify` */
  ghost function Stringified(names: seq<seq<int>>, fragment: bool): Maybe<seq<int>>
    requires AllBytes(names)
  {
    match EscapedAll(names, fragment)
    case None => None
    case Some(e) => Some((if fragment then ['#' as int] else []) + e)
  }

  /** ---- Reading ---- */

  /** One piece of a name: the bytes it stands for, and where it ends. */
  datatype Piece = Piece(bytes: seq<int>, next: nat) | BadPiece(code: ErrorCode, offset: nat)

  /** "~0" and "~1"; c is the character before position i. */
  function Unescape(src: seq<int>, i: nat, c: int): Piece {
    if c != TILDE then Piece([c], i)
    else if i < |src| && src[i] == '0' as int then Piece([TILDE], i + 1)
    else if i < |src| && src[i] == '1' as int then Piece([SLASH], i + 1)
    else BadPiece(InvalidEscape, i)
  }

  function NextPiece(src: seq<int>, i: nat, fragment: bool): (p: Piece)
    requires i < |src|
    ensures p.Piece? ==> p.bytes != [] && i + |p.bytes| <= p.next <= |src|
  {
    var c := src[i];
    if fragment && c == PERCENT then
      match PercentDecoded(src, i)
      case None => BadPiece(InvalidPercentEncoding, i)
      case Some(bytes) => if |bytes| == 1 then Unescape(src, i + 3, bytes[0]) else Piece(bytes, i + 3 * |bytes|)
    else if fragment && NeedPercentEncode(c) then BadPiece(CharacterMustPercentEncode, i)
    else Unescape(src, i + 1, c)
  }

  datatype NameEnd = Name(name: seq<int>, end: nat) | BadName(code: ErrorCode, offset: nat)

  /** The rest of a name whose first part is known. */
  function ParseName(src: seq<int>, i: nat, fragment: bool, name: seq<int>): (r: NameEnd)
    requires i <= |src|
    ensures r.Name? ==> i <= r.end <= |src| && (r.end < |src| ==> src[r.end] == SLASH)
    ensures r.Name? ==> |r.name| - |name| <= r.end - i
    decreases |src| - i
  {
    if i == |src| || src[i] == SLASH then Name(name, i)
    else match NextPiece(src, i, fragment)
      case BadPiece(code, offset) => BadName(code, offset)
      case Piece(bytes, next) => ParseName(src, next, fragment, name + bytes)
  }

  datatype Parsed = Tokens(names: seq<seq<int>>) | Failed(code: ErrorCode, offset: nat)

  /** The tokens from a position on, at a slash or at the end. */
  function ParseTokens(src: seq<int>, i: nat, fragment: bool, names: seq<seq<int>>): Parsed
    requires i <= |src|
    decreases |src| - i
  {
    if i == |src| then Tokens(names)
    else match ParseName(src, i + 1, fragment, [])
      case BadName(code, offset) => Failed(code, offset)
      case Name(name, end) => ParseTokens(src, end, fragment, names + [name])
  }

  function IsFragment(src: seq<int>): bool {
    src != [] && src[0] == '#' as int
  }

  /** `Parse` */
  function Parse(src: seq<int>): Parsed {
    var i := if IsFragment(src) then 1 else 0;
    if i != |src| && src[i] != SLASH then Failed(TokenMustBeginWithSolidus, i)
    else ParseTokens(src, i, IsFragment(src), [])
  }

  /** ---- Reading back what was written ---- */

  lemma HexBack(d: int)
    requires 0 <= d < 16
    ensures HexValue(HexDigit(d)) == Some(d)
  {
  }

  /** The text part lies in src at position i. */
  ghost predicate Lies(part: seq<int>, src: seq<int>, i: nat) {
    i + |part| <= |src| && src[i..i + |part|] == part
  }

  lemma LiesAt(part: seq<int>, src: seq<int>, i: nat, k: nat)
    requires Lies(part, src, i) && k < |part|
    ensures src[i + k] == part[k]
  {
    assert src[i..i + |part|][k] == src[i + k];
  }

  lemma LiesParts(a: seq<int>, b: seq<int>, src: seq<int>, i: nat)
    requires Lies(a + b, src, i)
    ensures Lies(a, src, i) && Lies(b, src, i + |a|)
  {
    assert src[i..i + |a|] == src[i..i + |a + b|][..|a|];
    assert src[i + |a|..i + |a| + |b|] == src[i..i + |a + b|][|a|..];
  }

  lemma TripletBack(b: int, src: seq<int>, i: nat)
    requires 0 <= b < 256 && Lies(Percent(b), src, i)
    ensures Triplet(src, i) == Some(b)
  {
    hide HexValue, HexDigit;
    LiesAt(Percent(b), src, i, 0);
    LiesAt(Percent(b), src, i, 1);
    LiesAt(Percent(b), src, i, 2);
    HexBack(b / 16);
    HexBack(b % 16);
  }

  lemma {:induction false} TripletsBack(bs: seq<int>, src: seq<int>, i: nat)
    requires Utf8.IsBytes(bs) && Lies(PercentAll(bs), src, i)
    ensures Triplets(src, i, |bs|) == Some(bs)
    decreases |bs|
  {
    hide Triplet, Percent;
    if bs != [] {
      LiesParts(Percent(bs[0]), PercentAll(bs[1..]), src, i);
      TripletBack(bs[0], src, i);
      TripletsBack(bs[1..], src, i + 3);
      assert [bs[0]] + bs[1..] == bs;
    }
  }

  /** An encoded character, percent-encoded byte by byte, is decoded as a whole. */
  lemma PercentBack(name: seq<int>, n: nat, src: seq<int>, i: nat)
    requires name != [] && Utf8.IsBytes(name) && Utf8.Decode(name).Valid? && n == Utf8.Decode(name).length
    ensures 0 < n <= |name|
    ensures Lies(PercentAll(name[..n]), src, i) ==> PercentDecoded(src, i) == Some(name[..n])
  {
    hide Triplet, Percent, Triplets, PercentAll, Utf8.GetRange, Utf8.Tails, Utf8.GoodTails, Lies, Utf8.Decode;
    DecodeShape(name);
    assert name[..n] == [name[0]] + name[1..n];
    if Lies(PercentAll(name[..n]), src, i) {
      PercentFirst(name[..n], src, i);
      assert name[..n][0] == name[0] && name[..n][1..] == name[1..n];
      if name[0] < 0x80 {
        assert name[..n] == [name[0]];
      }
    }
  }

  lemma DecodeShape(name: seq<int>)
    requires name != [] && Utf8.IsBytes(name) && Utf8.Decode(name).Valid?
    ensures var n := Utf8.Decode(name).length;
            && 0 < n <= |name| && (name[0] < 0x80 ==> n == 1)
            && (name[0] >= 0x80 ==> n > 1 && Utf8.Tails(Utf8.GetRange(name[0])).0 == n - 1)
            && (name[0] >= 0x80 ==> Utf8.GoodTails(name[1..n], Utf8.Tails(Utf8.GetRange(name[0])).1))
  {
    hide Utf8.GetRange, Utf8.GoodTails, Utf8.Append, Utf8.Payload;
  }

  lemma PercentFirst(bs: seq<int>, src: seq<int>, i: nat)
    requires bs != [] && Utf8.IsBytes(bs) && Lies(PercentAll(bs), src, i)
    ensures Triplet(src, i) == Some(bs[0]) && Triplets(src, i + 3, |bs| - 1) == Some(bs[1..])
  {
    hide Triplet, Percent, Lies;
    assert PercentAll(bs) == Percent(bs[0]) + PercentAll(bs[1..]);
    LiesParts(Percent(bs[0]), PercentAll(bs[1..]), src, i);
    TripletBack(bs[0], src, i);
    TripletsBack(bs[1..], src, i + 3);
  }

  /** What is written for the start of a name is read back as just that. */
  lemma PieceBack(name: seq<int>, fragment: bool, src: seq<int>, i: nat)
    requires name != [] && Utf8.IsBytes(name) && WriteNext(name, fragment).Written?
    requires Lies(WriteNext(name, fragment).out, src, i)
    ensures var w := WriteNext(name, fragment);
            && w.out != [] && w.out[0] != SLASH && i < |src| && src[i] == w.out[0]
            && NextPiece(src, i, fragment) == Piece(name[..w.count], i + |w.out|)
  {
    hide Lies, PercentDecoded, PercentAll, Percent;
    var w, c := WriteNext(name, fragment), name[0];
    if c == TILDE || c == SLASH {
      LiesAt(w.out, src, i, 0);
      LiesAt(w.out, src, i, 1);
      LiesLength(w.out, src, i);
      assert name[..1] == [c];
    } else if fragment && NeedPercentEncode(c) {
      EncodedBack(name, src, i);
    } else {
      LiesAt(w.out, src, i, 0);
      LiesLength(w.out, src, i);
      assert name[..1] == [c];
      assert c != PERCENT || !fragment;
    }
  }

  lemma LiesLength(part: seq<int>, src: seq<int>, i: nat)
    requires Lies(part, src, i)
    ensures i + |part| <= |src|
  {
  }

  lemma EncodedBack(name: seq<int>, src: seq<int>, i: nat)
    requires name != [] && Utf8.IsBytes(name) && name[0] != TILDE && name[0] != SLASH && NeedPercentEncode(name[0])
    requires WriteNext(name, true).Written? && Lies(WriteNext(name, true).out, src, i)
    ensures var w := WriteNext(name, true);
            && w.out != [] && w.out[0] == PERCENT && i < |src| && src[i] == PERCENT
            && NextPiece(src, i, true) == Piece(name[..w.count], i + |w.out|)
  {
    hide Lies, PercentDecoded, Utf8.Decode, NeedPercentEncode;
    var w := WriteNext(name, true);
    PercentBack(name, w.count, src, i);
    PercentStart(name[..w.count]);
    LiesLength(w.out, src, i);
    LiesAt(w.out, src, i, 0);
  }

  lemma PercentStart(bs: seq<int>)
    requires bs != [] && Utf8.IsBytes(bs)
    ensures PercentAll(bs)[0] == PERCENT
  {
  }

  lemma {:induction false} NameBack(name: seq<int>, fragment: bool, src: seq<int>, i: nat, before: seq<int>)
    requires Utf8.IsBytes(name) && Escaped(name, fragment).Some? && Lies(Escaped(name, fragment).value, src, i)
    requires var e := i + |Escaped(name, fragment).value|; e == |src| || src[e] == SLASH
    ensures ParseName(src, i, fragment, before) == Name(before + name, i + |Escaped(name, fragment).value|)
    decreases |name|
  {
    hide Escaped, ParseName, WriteNext, NextPiece, Lies, Utf8.IsBytes;
    EscapedParts(name, fragment);
    LiesLength(Escaped(name, fragment).value, src, i);
    if name == [] {
      assert before + name == before;
      NameEnds(src, i, fragment, before);
    } else {
      var w := WriteNext(name, fragment);
      var rest := name[w.count..];
      LiesParts(w.out, Escaped(rest, fragment).value, src, i);
      PieceBack(name, fragment, src, i);
      NameBack(rest, fragment, src, i + |w.out|, before + name[..w.count]);
      NameGoes(src, i, fragment, before);
      assert before + name[..w.count] + rest == before + name;
    }
  }

  lemma NameEnds(src: seq<int>, i: nat, fragment: bool, name: seq<int>)
    requires i <= |src| && (i == |src| || src[i] == SLASH)
    ensures ParseName(src, i, fragment, name) == Name(name, i)
  {
  }

  lemma NameGoes(src: seq<int>, i: nat, fragment: bool, name: seq<int>)
    requires i < |src| && src[i] != SLASH
    ensures var p := NextPiece(src, i, fragment);
            ParseName(src, i, fragment, name) == if p.Piece? then ParseName(src, p.next, fragment, name + p.bytes) else BadName(p.code, p.offset)
  {
    hide NextPiece;
  }

  lemma EscapedParts(name: seq<int>, fragment: bool)
    requires Utf8.IsBytes(name) && Escaped(name, fragment).Some?
    ensures name == [] ==> Escaped(name, fragment) == Some([])
    ensures name != [] ==>
              var w := WriteNext(name, fragment);
              && w.Written? && 0 < w.count <= |name| && Utf8.IsBytes(name[w.count..]) && Escaped(name[w.count..], fragment).Some?
              && Escaped(name, fragment).value == w.out + Escaped(name[w.count..], fragment).value
  {
    hide WriteNext;
  }

  lemma {:induction false} TokensBack(names: seq<seq<int>>, fragment: bool, src: seq<int>, i: nat, before: seq<seq<int>>)
    requires AllBytes(names) && EscapedAll(names, fragment).Some? && i <= |src| && src[i..] == EscapedAll(names, fragment).value
    ensures ParseTokens(src, i, fragment, before) == Tokens(before + names)
    decreases |names|
  {
    hide ParseName, Escaped, EscapedAll, ParseTokens, Lies, Utf8.IsBytes;
    EscapedAllParts(names, fragment);
    if names == [] {
      assert before + names == before;
      NoTokens(src, i, fragment, before);
    } else {
      var e, more := Escaped(names[0], fragment).value, EscapedAll(names[1..], fragment).value;
      TailLies(src, i, e, more);
      MoreStarts(names[1..], fragment);
      NextStarts(src, i + 1 + |e|, more);
      NameBack(names[0], fragment, src, i + 1, []);
      TokensBack(names[1..], fragment, src, i + 1 + |e|, before + [names[0]]);
      assert [] + names[0] == names[0];
      assert before + [names[0]] + names[1..] == before + names;
      OneToken(src, i, fragment, before);
    }
  }

  lemma EscapedAllParts(names: seq<seq<int>>, fragment: bool)
    requires AllBytes(names) && EscapedAll(names, fragment).Some?
    ensures names == [] ==> EscapedAll(names, fragment) == Some([])
    ensures names != [] ==> AllBytes(names[1..]) && Utf8.IsBytes(names[0]) && Escaped(names[0], fragment).Some? && EscapedAll(names[1..], fragment).Some?
    ensures names != [] ==> EscapedAll(names, fragment).value == [SLASH] + Escaped(names[0], fragment).value + EscapedAll(names[1..], fragment).value
  {
    hide Escaped;
  }

  lemma NoTokens(src: seq<int>, i: nat, fragment: bool, names: seq<seq<int>>)
    requires i <= |src| && src[i..] == []
    ensures ParseTokens(src, i, fragment, names) == Tokens(names)
  {
  }

  lemma OneToken(src: seq<int>, i: nat, fragment: bool, names: seq<seq<int>>)
    requires i < |src| && ParseName(src, i + 1, fragment, []).Name?
    ensures var r := ParseName(src, i + 1, fragment, []);
            ParseTokens(src, i, fragment, names) == ParseTokens(src, r.end, fragment, names + [r.name])
  {
    hide ParseName;
  }

  lemma NextStarts(src: seq<int>, i: nat, more: seq<int>)
    requires i <= |src| && src[i..] == more && (more == [] || more[0] == SLASH)
    ensures i == |src| || src[i] == SLASH
  {
  }

  lemma TailLies(src: seq<int>, i: nat, e: seq<int>, more: seq<int>)
    requires i <= |src| && src[i..] == [SLASH] + e + more
    ensures i + 1 + |e| <= |src| && src[i] == SLASH && Lies(e, src, i + 1) && src[i + 1 + |e|..] == more
  {
    assert src[i..][0] == SLASH;
    assert src[i + 1..i + 1 + |e|] == src[i..][1..1 + |e|];
    assert src[i + 1 + |e|..] == src[i..][1 + |e|..];
  }

  lemma MoreStarts(names: seq<seq<int>>, fragment: bool)
    requires AllBytes(names) && EscapedAll(names, fragment).Some?
    ensures EscapedAll(names, fragment).value == [] || EscapedAll(names, fragment).value[0] == SLASH
  {
    hide Escaped;
  }

  /** PARSING WHAT `Stringify` WROTE gives the names back: all of them in the plain form, and those that can be written
      as a fragment in the other. */
  lemma ParseStringified(names: seq<seq<int>>, fragment: bool)
    requires AllBytes(names) && Stringified(names, fragment).Some?
    ensures Parse(Stringified(names, fragment).value) == Tokens(names)
  {
    hide ParseTokens, EscapedAll;
    var src, e := Stringified(names, fragment).value, EscapedAll(names, fragment).value;
    MoreStarts(names, fragment);
    if fragment {
      assert src[1..] == e && src[0] == '#' as int;
      TokensBack(names, true, src, 1, []);
    } else {
      assert src[0..] == e && src == e;
      TokensBack(names, false, src, 0, []);
    }
    assert [] + names == names;
  }

  /** ---- Which names can be written ---- */

  /** UTF-8 throughout. */
  predicate IsText(name: seq<int>)
    requires Utf8.IsBytes(name)
    decreases |name|
  {
    name == [] ||
    match Utf8.Decode(name)
    case Invalid => false
    case Valid(_, n) => 0 < n <= |name| && IsText(name[n..])
  }

  /** Every name can be written plainly; exactly those that are UTF-8 can be written in a fragment. */
  lemma {:induction false} Writable(name: seq<int>)
    requires Utf8.IsBytes(name)
    ensures Escaped(name, false).Some?
    ensures Escaped(name, true).Some? <==> IsText(name)
    decreases |name|
  {
    hide Utf8.Decode, PercentAll;
    if name != [] {
      Ascii(name);
      Writable(name[1..]);
      if name[0] >= 0x80 && Utf8.Decode(name).Valid? && 0 < Utf8.Decode(name).length <= |name| {
        Writable(name[Utf8.Decode(name).length..]);
      }
    }
  }

  lemma Ascii(name: seq<int>)
    requires name != [] && Utf8.IsBytes(name)
    ensures name[0] < 0x80 ==> Utf8.Decode(name) == Utf8.Valid(name[0], 1)
    ensures name[0] >= 0x80 ==> NeedPercentEncode(name[0]) && name[0] != SLASH && name[0] != TILDE
  {
  }

  lemma {:induction false} AllWritable(names: seq<seq<int>>)
    requires AllBytes(names)
    ensures EscapedAll(names, false).Some?
    ensures EscapedAll(names, true).Some? <==> forall i | 0 <= i < |names| :: IsText(names[i])
    decreases |names|
  {
    hide Escaped, IsText;
    if names != [] {
      Writable(names[0]);
      AllWritable(names[1..]);
      assert names == [names[0]] + names[1..];
    }
  }

  /** EVERY LIST OF NAMES survives being written plainly and read back, and every list of UTF-8 names survives as a
      URI fragment. */
  lemma RoundTrip(names: seq<seq<int>>)
    requires AllBytes(names)
    ensures Stringified(names, false).Some? && Parse(Stringified(names, false).value) == Tokens(names)
    ensures (forall i | 0 <= i < |names| :: IsText(names[i]))
            ==> Stringified(names, true).Some? && Parse(Stringified(names, true).value) == Tokens(names)
    ensures Stringified(names, true).Some? ==> forall i | 0 <= i < |names| :: IsText(names[i])
  {
    hide Parse, EscapedAll, IsText;
    AllWritable(names);
    ParseStringified(names, false);
    if Stringified(names, true).Some? {
      ParseStringified(names, true);
    }
  }

  /** ---- Array indices ---- */

  /** The loop that turns digits into a 32-bit number; it stops when the number becomes smaller. */
  function Accumulate(digits: seq<int>, n: nat): (r: Maybe<nat>)
    requires AllDigits(digits) && n < WIDTH
    ensures r.Some? ==> r.value < WIDTH
    decreases |digits|
  {
    if digits == [] then Some(n)
    else if Next(n, digits[0]).None? then None
    else Accumulate(digits[1..], Next(n, digits[0]).value)
  }

  /** One more digit, unless the number becomes smaller. */
  function Next(n: nat, c: int): (r: Maybe<nat>)
    requires IsDigit(c)
    ensures r.Some? ==> r.value < WIDTH
  {
    var m := (n * 10 + (c - '0' as int)) % WIDTH;
    if m < n then None else Some(m)
  }

  /** The index of a token. */
  function TokenIndex(name: seq<int>): nat {
    if name == [] || !AllDigits(name) || (|name| > 1 && name[0] == '0' as int) then INVALID_INDEX
    else match Accumulate(name, 0)
      case None => INVALID_INDEX
      case Some(n) => n
  }

  /** Without overflow the loop computes the value. */
  lemma {:induction false} AccumulateIs(digits: seq<int>, before: seq<int>)
    requires AllDigits(digits) && AllDigits(before) && ValueOf(before + digits) < WIDTH
    ensures ValueOf(before) < WIDTH && Accumulate(digits, ValueOf(before)) == Some(ValueOf(before + digits))
    decreases |digits|
  {
    hide ValueOf;
    if digits == [] {
      assert before + digits == before;
    } else {
      ValuePush(before, digits[0]);
      assert before + [digits[0]] + digits[1..] == before + digits;
      AccumulateIs(digits[1..], before + [digits[0]]);
    }
  }

  /** A CANONICAL DECIMAL IS ITS OWN INDEX EXACTLY WHEN it fits in 32 bits; the largest such index means none. */
  lemma IndexOfDecimal(n: nat)
    ensures TokenIndex(Decimal(n)) == n <==> n <= INVALID_INDEX
  {
    hide ValueOf, Decimal, Accumulate;
    ValueDecimal(n);
    assert [] + Decimal(n) == Decimal(n);
    ValueNothing();
    CanonicalDecimal(n);
    if n <= INVALID_INDEX {
      AccumulateIs(Decimal(n), []);
    }
  }

  lemma ValueNothing()
    ensures ValueOf([]) == 0
  {
  }

  lemma CanonicalDecimal(n: nat)
    ensures |Decimal(n)| > 1 ==> Decimal(n)[0] != '0' as int
  {
  }

  lemma {:induction false} AccumulatePush(digits: seq<int>, c: int, n: nat)
    requires AllDigits(digits) && IsDigit(c) && n < WIDTH
    ensures Accumulate(digits + [c], n) == if Accumulate(digits, n).None? then None else Next(Accumulate(digits, n).value, c)
    decreases |digits|
  {
    if digits == [] {
      assert ([] + [c])[1..] == [];
    } else {
      assert (digits + [c])[1..] == digits[1..] + [c];
      if Next(n, digits[0]).Some? {
        AccumulatePush(digits[1..], c, Next(n, digits[0]).value);
      }
    }
  }

  /** At every digit, the number so far, cut off to 32 bits, is no smaller than before. */
  predicate Grows(n: nat)
    decreases n
  {
    n < 10 || (Grows(n / 10) && n / 10 % WIDTH <= n % WIDTH)
  }

  lemma CutOff(n: nat)
    ensures (n / 10 % WIDTH * 10 + n % 10) % WIDTH == n % WIDTH
  {
    var q, r := n / 10 / WIDTH, n / 10 % WIDTH;
    assert n == (10 * r + n % 10) + 10 * q * WIDTH;
    Multiples(10 * r + n % 10, 10 * q);
  }

  lemma {:induction false} Multiples(x: nat, k: nat)
    ensures (x + k * WIDTH) % WIDTH == x % WIDTH
  {
    if k > 0 {
      Multiples(x, k - 1);
      assert x + k * WIDTH == x + (k - 1) * WIDTH + WIDTH;
    }
  }

  lemma {:induction false} AccumulateDecimal(n: nat)
    ensures AllDigits(Decimal(n)) && Accumulate(Decimal(n), 0) == if Grows(n) then Some(n % WIDTH) else None
    decreases n
  {
    hide Accumulate;
    if n < 10 {
      AccumulateIs(Decimal(n), []);
      assert [] + Decimal(n) == Decimal(n);
      ValueDecimal(n);
      ValueNothing();
    } else {
      AccumulateDecimal(n / 10);
      AccumulatePush(Decimal(n / 10), DigitOf(n % 10), 0);
      CutOff(n);
    }
  }

  /** THE INDEX OF EVERY DECIMAL, beyond 32 bits too: the overflow is noticed exactly when the number so far gets
      smaller at some digit, and otherwise the index is what is left of the number. */
  lemma IndexBeyond(n: nat)
    ensures TokenIndex(Decimal(n)) == if Grows(n) then n % WIDTH else INVALID_INDEX
    ensures n < WIDTH ==> Grows(n)
  {
    hide Accumulate, Decimal, Grows;
    AccumulateDecimal(n);
    CanonicalDecimal(n);
    if n < WIDTH {
      SmallGrows(n);
    }
  }

  lemma {:induction false} SmallGrows(n: nat)
    requires n < WIDTH
    ensures Grows(n)
    decreases n
  {
    if n >= 10 {
      SmallGrows(n / 10);
    }
  }

  /** "5000000000" becomes the index 705032704. */
  lemma OverflowMissed()
    ensures TokenIndex(Decimal(5000000000)) == 705032704
  {
    hide Decimal, TokenIndex, Grows;
    SmallGrows(500000000);
    GrowsStep(5000000000);
    IndexBeyond(5000000000);
  }

  lemma GrowsStep(n: nat)
    requires n >= 10
    ensures Grows(n) <==> Grows(n / 10) && n / 10 % WIDTH <= n % WIDTH
  {
  }
}
