/** JSON Pointers as sections 3, 4 and 6 of RFC 6901 have them: which texts are pointers, and to which names. */
module PointerSyntax {
  import opened Decimals
  import opened Pointers
  import opened Wrappers
  import Utf8

  /** ---- Names, spelt ---- */

  /** A percent sign and two hexadecimal digits. */
  datatype Octet = Octet(high: int, low: int)

  /** A character as itself, `~0` or `~1`, and in a fragment a character percent-encoded as its UTF-8 bytes, or an
      encoded tilde with its digit. */
  datatype Sign = Raw(c: int) | Tilde(digit: int) | Coded(octets: seq<Octet>, cp: int) | CodedTilde(octet: Octet, digit: int)

  predicate OkOctet(o: Octet) {
    IsHexDigit(o.high) && IsHexDigit(o.low)
  }

  function OctetValue(o: Octet): (v: nat)
    requires OkOctet(o)
    ensures v < 256
  {
    DigitValue(o.high) * 16 + DigitValue(o.low)
  }

  function OctetText(o: Octet): seq<int> {
    ['%' as int, o.high, o.low]
  }

  predicate OkOctets(os: seq<Octet>) {
    forall i | 0 <= i < |os| :: OkOctet(os[i])
  }

  function OctetsText(os: seq<Octet>): seq<int> {
    if os == [] then [] else OctetText(os[0]) + OctetsText(os[1..])
  }

  function OctetsBytes(os: seq<Octet>): (bs: seq<int>)
    requires OkOctets(os)
    ensures |bs| == |os| && Utf8.IsBytes(bs) && forall i | 0 <= i < |os| :: bs[i] == OctetValue(os[i])
  {
    seq(|os|, i requires 0 <= i < |os| => OctetValue(os[i]))
  }

  /** Unreserved in section 2.3 of RFC 3986, but for the tilde. */
  predicate IsUnreserved(c: int) {
    0x30 <= c <= 0x39 || 0x41 <= c <= 0x5A || 0x61 <= c <= 0x7A || c == 0x2D || c == 0x2E || c == 0x5F
  }

  predicate OkSign(s: Sign, fragment: bool) {
    match s
    case Raw(c) => if fragment then IsUnreserved(c) else c != 0x7E && c != 0x2F
    case Tilde(digit) => digit == 0x30 || digit == 0x31
    case Coded(os, cp) => fragment && OkOctets(os) && Utf8.IsScalar(cp) && cp != 0x7E && Utf8.Encodes(OctetsBytes(os), cp)
    case CodedTilde(o, digit) => fragment && OkOctet(o) && OctetValue(o) == 0x7E && (digit == 0x30 || digit == 0x31)
  }

  function SignText(s: Sign): (t: seq<int>) {
    match s
    case Raw(c) => [c]
    case Tilde(digit) => [0x7E, digit]
    case Coded(os, _) => OctetsText(os)
    case CodedTilde(o, digit) => OctetText(o) + [digit]
  }

  function SignBytes(s: Sign, fragment: bool): seq<int>
    requires OkSign(s, fragment)
  {
    match s
    case Raw(c) => [c]
    case Tilde(digit) => [if digit == 0x30 then 0x7E else 0x2F]
    case Coded(os, _) => OctetsBytes(os)
    case CodedTilde(_, digit) => [if digit == 0x30 then 0x7E else 0x2F]
  }

  predicate OkSigns(ss: seq<Sign>, fragment: bool) {
    forall i | 0 <= i < |ss| :: OkSign(ss[i], fragment)
  }

  function SignsText(ss: seq<Sign>): seq<int> {
    if ss == [] then [] else SignText(ss[0]) + SignsText(ss[1..])
  }

  function SignsBytes(ss: seq<Sign>, fragment: bool): seq<int>
    requires OkSigns(ss, fragment)
  {
    if ss == [] then [] else SignBytes(ss[0], fragment) + SignsBytes(ss[1..], fragment)
  }

  /** t spells the name. */
  ghost predicate SpellsName(t: seq<int>, name: seq<int>, fragment: bool) {
    exists ss :: OkSigns(ss, fragment) && SignsText(ss) == t && SignsBytes(ss, fragment) == name
  }

  /** ---- Octets ---- */

  lemma HexAgrees(c: int)
    ensures HexValue(c) == if IsHexDigit(c) then Some(DigitValue(c) as int) else None
  {
  }

  lemma ReadOctet(src: seq<int>, i: nat, o: Octet)
    requires OkOctet(o) && Lies(OctetText(o), src, i)
    ensures Triplet(src, i) == Some(OctetValue(o) as int) && i + 3 <= |src| && src[i] == '%' as int
  {
    LiesAt(OctetText(o), src, i, 0);
    LiesAt(OctetText(o), src, i, 1);
    LiesAt(OctetText(o), src, i, 2);
    HexAgrees(o.high);
    HexAgrees(o.low);
    hide HexValue, DigitValue, IsHexDigit;
  }

  lemma TripletOctet(src: seq<int>, i: nat) returns (o: Octet)
    requires Triplet(src, i).Some?
    ensures OkOctet(o) && Lies(OctetText(o), src, i) && Triplet(src, i) == Some(OctetValue(o) as int)
  {
    o := Octet(src[i + 1], src[i + 2]);
    HexAgrees(o.high);
    HexAgrees(o.low);
    hide HexValue, DigitValue, IsHexDigit;
    assert src[i..i + 3] == OctetText(o);
  }

  lemma {:induction false} ReadOctets(src: seq<int>, i: nat, os: seq<Octet>)
    requires OkOctets(os) && Lies(OctetsText(os), src, i)
    ensures Triplets(src, i, |os|) == Some(OctetsBytes(os)) && |OctetsText(os)| == 3 * |os|
    decreases |os|
  {
    hide OkOctet, OctetText, OctetValue, Triplet, Lies;
    if os != [] {
      LiesParts(OctetText(os[0]), OctetsText(os[1..]), src, i);
      ReadOctet(src, i, os[0]);
      assert |OctetText(os[0])| == 3 by { OctetLength(os[0]); }
      ReadOctets(src, i + 3, os[1..]);
      assert [OctetValue(os[0])] + OctetsBytes(os[1..]) == OctetsBytes(os);
    } else {
      assert OctetsBytes(os) == [];
    }
  }

  lemma OctetLength(o: Octet)
    ensures |OctetText(o)| == 3
  {
  }

  lemma {:induction false} TripletsOctets(src: seq<int>, i: nat, n: nat) returns (os: seq<Octet>)
    requires i <= |src| && Triplets(src, i, n).Some?
    ensures OkOctets(os) && Lies(OctetsText(os), src, i) && |OctetsText(os)| == 3 * n && Triplets(src, i, n) == Some(OctetsBytes(os))
    decreases n
  {
    hide OkOctet, OctetText, OctetValue, Triplet, Lies;
    if n == 0 {
      os := [];
      LiesNothing(src, i);
      assert OctetsBytes(os) == [];
    } else {
      var o := TripletOctet(src, i);
      OctetLength(o);
      LiesLength(OctetText(o), src, i);
      var rest := TripletsOctets(src, i + 3, n - 1);
      os := [o] + rest;
      assert os[1..] == rest;
      LiesJoin(OctetText(o), OctetsText(rest), src, i);
      assert [OctetValue(o)] + OctetsBytes(rest) == OctetsBytes(os);
    }
  }

  lemma LiesNothing(src: seq<int>, i: nat)
    requires i <= |src|
    ensures Lies([], src, i)
  {
  }

  lemma LiesJoin(a: seq<int>, b: seq<int>, src: seq<int>, i: nat)
    requires Lies(a, src, i) && Lies(b, src, i + |a|)
    ensures Lies(a + b, src, i)
  {
    assert src[i..i + |a + b|] == src[i..i + |a|] + src[i + |a|..i + |a| + |b|];
  }

  lemma LiesOne(src: seq<int>, i: nat)
    requires i < |src|
    ensures Lies([src[i]], src, i)
  {
    assert src[i..i + 1] == [src[i]];
  }

  /** ---- One encoded character ---- */

  /** Bytes that are the UTF-8 of one character, as the decoder sees them. */
  lemma EncodedShape(bytes: seq<int>, cp: int)
    requires Utf8.IsBytes(bytes) && Utf8.IsScalar(cp) && Utf8.Encodes(bytes, cp)
    ensures bytes != [] && (bytes[0] < 0x80 ==> |bytes| == 1 && bytes[0] == cp)
    ensures bytes[0] >= 0x80 ==>
              var tails := Utf8.Tails(Utf8.GetRange(bytes[0]));
              |bytes| > 1 && tails.0 == |bytes| - 1 && Utf8.IsBytes(bytes[1..]) && Utf8.GoodTails(bytes[1..], tails.1)
  {
    hide Utf8.Decode, Utf8.GetRange, Utf8.Tails, Utf8.GoodTails;
    Utf8.EncodeIs(bytes, cp);
    Utf8.DecodeEncoded(cp, []);
    assert Utf8.Encode(cp) + [] == bytes;
    DecodeShape(bytes);
    assert bytes[1..|bytes|] == bytes[1..];
  }

  lemma ShapeEncoded(bytes: seq<int>) returns (cp: int)
    requires Utf8.IsBytes(bytes) && bytes != []
    requires if bytes[0] < 0x80 then |bytes| == 1
             else var tails := Utf8.Tails(Utf8.GetRange(bytes[0]));
                  tails.0 > 0 && tails.0 == |bytes| - 1 && Utf8.GoodTails(bytes[1..], tails.1)
    ensures Utf8.IsScalar(cp) && Utf8.Encodes(bytes, cp) && (|bytes| == 1 ==> cp == bytes[0] < 0x80)
  {
    ShapeDecodes(bytes);
    hide Utf8.Decode, Utf8.GetRange, Utf8.Tails, Utf8.GoodTails;
    cp := Utf8.Decode(bytes).cp;
    Utf8.DecodeOnlyEncoded(bytes);
    assert bytes[..|bytes|] == bytes;
    Utf8.EncodeIs(bytes, cp);
  }

  lemma ShapeDecodes(bytes: seq<int>)
    requires Utf8.IsBytes(bytes) && bytes != []
    requires if bytes[0] < 0x80 then |bytes| == 1
             else var tails := Utf8.Tails(Utf8.GetRange(bytes[0]));
                  tails.0 > 0 && tails.0 == |bytes| - 1 && Utf8.GoodTails(bytes[1..], tails.1)
    ensures Utf8.Decode(bytes).Valid? && Utf8.Decode(bytes).length == |bytes| && (bytes[0] < 0x80 ==> Utf8.Decode(bytes).cp == bytes[0])
  {
    hide Utf8.GetRange, Utf8.GoodTails, Utf8.Append, Utf8.Payload;
    if bytes[0] >= 0x80 {
      assert bytes[1..|bytes|] == bytes[1..];
    }
  }

  lemma ReadCoded(src: seq<int>, i: nat, os: seq<Octet>, cp: int)
    requires OkOctets(os) && Utf8.IsScalar(cp) && Utf8.Encodes(OctetsBytes(os), cp) && Lies(OctetsText(os), src, i)
    ensures |OctetsText(os)| == 3 * |os| && i < |src| && src[i] == '%' as int && PercentDecoded(src, i) == Some(OctetsBytes(os))
  {
    hide Lies, Triplet, Triplets, PercentDecoded, Utf8.Encodes, Utf8.GetRange, Utf8.Tails, Utf8.GoodTails, OctetValue, OkOctet, OctetText;
    var bytes := OctetsBytes(os);
    EncodedShape(bytes, cp);
    ReadOctets(src, i, os);
    assert OctetsText(os) == OctetText(os[0]) + OctetsText(os[1..]);
    LiesParts(OctetText(os[0]), OctetsText(os[1..]), src, i);
    ReadOctet(src, i, os[0]);
    OctetLength(os[0]);
    ReadOctets(src, i + 3, os[1..]);
    assert OctetsBytes(os[1..]) == bytes[1..];
    PercentIs(src, i, bytes);
  }

  lemma PercentIs(src: seq<int>, i: nat, bytes: seq<int>)
    requires Utf8.IsBytes(bytes) && bytes != [] && Triplet(src, i) == Some(bytes[0])
    requires Triplets(src, i + 3, |bytes| - 1) == Some(bytes[1..])
    requires if bytes[0] < 0x80 then |bytes| == 1
             else var tails := Utf8.Tails(Utf8.GetRange(bytes[0]));
                  |bytes| > 1 && tails.0 == |bytes| - 1 && Utf8.GoodTails(bytes[1..], tails.1)
    ensures PercentDecoded(src, i) == Some(bytes)
  {
    hide Triplet, Triplets, Utf8.GetRange, Utf8.Tails, Utf8.GoodTails;
    assert [bytes[0]] + bytes[1..] == bytes;
    if |bytes| == 1 {
      assert bytes == [bytes[0]];
    }
  }

  lemma CodedAt(src: seq<int>, i: nat) returns (os: seq<Octet>, cp: int)
    requires i < |src| && PercentDecoded(src, i).Some?
    ensures OkOctets(os) && Utf8.IsScalar(cp) && Utf8.Encodes(OctetsBytes(os), cp) && Lies(OctetsText(os), src, i)
    ensures |OctetsText(os)| == 3 * |os| && PercentDecoded(src, i) == Some(OctetsBytes(os)) && (|os| == 1 ==> cp == OctetsBytes(os)[0])
  {
    hide Lies, Triplet, Utf8.Encodes, Utf8.GetRange, Utf8.Tails, Utf8.GoodTails, OctetValue, OkOctet, OctetText;
    var bytes := PercentDecoded(src, i).value;
    AllTriplets(src, i);
    os := TripletsOctets(src, i, |bytes|);
    assert bytes[1..] == bytes[1..|bytes|];
    PercentShape(src, i);
    cp := ShapeEncoded(bytes);
  }

  lemma AllTriplets(src: seq<int>, i: nat)
    requires PercentDecoded(src, i).Some?
    ensures var bytes := PercentDecoded(src, i).value; Triplets(src, i, |bytes|) == Some(bytes)
  {
    hide Triplet, Utf8.GetRange, Utf8.Tails, Utf8.GoodTails;
    var b := Triplet(src, i).value;
    if b < 0x80 {
      assert Triplets(src, i + 3, 0) == Some([]);
      assert [b] + [] == [b];
    }
  }

  lemma PercentShape(src: seq<int>, i: nat)
    requires PercentDecoded(src, i).Some?
    ensures var bytes := PercentDecoded(src, i).value;
            if bytes[0] < 0x80 then |bytes| == 1
            else var tails := Utf8.Tails(Utf8.GetRange(bytes[0]));
                 tails.0 > 0 && tails.0 == |bytes| - 1 && Utf8.IsBytes(bytes[1..]) && Utf8.GoodTails(bytes[1..], tails.1)
  {
    hide Triplet, Utf8.GetRange, Utf8.Tails, Utf8.GoodTails;
    var b := Triplet(src, i).value;
    if b >= 0x80 {
      var bs := Triplets(src, i + 3, Utf8.Tails(Utf8.GetRange(b)).0).value;
      assert ([b] + bs)[1..] == bs;
    }
  }

  /** ---- One sign ---- */

  lemma UnreservedAgrees(c: int)
    ensures IsUnreserved(c) <==> !NeedPercentEncode(c) && c != TILDE
    ensures IsUnreserved(c) ==> c != SLASH && c != PERCENT
    ensures NeedPercentEncode(SLASH) && !NeedPercentEncode(TILDE)
  {
  }

  lemma ReadSign(src: seq<int>, i: nat, s: Sign, fragment: bool)
    requires OkSign(s, fragment) && Lies(SignText(s), src, i)
    ensures i < |src| && src[i] != SLASH && NextPiece(src, i, fragment) == Piece(SignBytes(s, fragment), i + |SignText(s)|)
  {
    hide Lies, PercentDecoded, NeedPercentEncode, IsUnreserved, Utf8.Encodes, OkOctets, OkOctet, OctetValue, OctetsText;
    LiesLength(SignText(s), src, i);
    match s
    case Raw(c) =>
      LiesAt([c], src, i, 0);
      UnreservedAgrees(c);
    case Tilde(digit) =>
      LiesAt(SignText(s), src, i, 0);
      LiesAt(SignText(s), src, i, 1);
      UnreservedAgrees(0x7E);
    case Coded(os, cp) =>
      ReadCoded(src, i, os, cp);
      CodedOne(os, cp);
    case CodedTilde(o, digit) =>
      LiesParts(OctetText(o), [digit], src, i);
      ReadOctet(src, i, o);
      LiesAt([digit], src, i + 3, 0);
      TildeDecoded(src, i);
  }

  lemma CodedOne(os: seq<Octet>, cp: int)
    requires OkOctets(os) && Utf8.Encodes(OctetsBytes(os), cp)
    ensures os != [] && (|os| == 1 ==> OctetsBytes(os)[0] == cp)
  {
  }

  lemma TildeDecoded(src: seq<int>, i: nat)
    requires Triplet(src, i) == Some(0x7E)
    ensures PercentDecoded(src, i) == Some([TILDE])
  {
  }

  lemma SignAt(src: seq<int>, i: nat, fragment: bool) returns (s: Sign)
    requires i < |src| && src[i] != SLASH && NextPiece(src, i, fragment).Piece?
    ensures OkSign(s, fragment) && Lies(SignText(s), src, i) && NextPiece(src, i, fragment) == Piece(SignBytes(s, fragment), i + |SignText(s)|)
  {
    hide Lies, PercentDecoded, NeedPercentEncode, IsUnreserved, Utf8.Encodes, OkOctets, OctetsText;
    var c := src[i];
    UnreservedAgrees(c);
    if fragment && c == PERCENT {
      s := CodedSign(src, i);
    } else if c == TILDE {
      s := Tilde(src[i + 1]);
      LiesOne(src, i);
      LiesOne(src, i + 1);
      LiesJoin([c], [src[i + 1]], src, i);
      assert [c] + [src[i + 1]] == SignText(s);
    } else {
      s := Raw(c);
      LiesOne(src, i);
    }
  }

  lemma CodedSign(src: seq<int>, i: nat) returns (s: Sign)
    requires i < |src| && src[i] == PERCENT && NextPiece(src, i, true).Piece?
    ensures OkSign(s, true) && Lies(SignText(s), src, i) && NextPiece(src, i, true) == Piece(SignBytes(s, true), i + |SignText(s)|)
  {
    hide Lies, PercentDecoded, NeedPercentEncode, Utf8.Encodes, OctetValue, OctetText, OkOctet, OctetsText;
    var os, cp := CodedAt(src, i);
    if cp != TILDE || |os| > 1 {
      s := Coded(os, cp);
      CodedTildeOne(os, cp);
    } else {
      s := CodedTilde(os[0], src[i + 3]);
      LiesOne(src, i + 3);
      OctetLength(os[0]);
      OneOctet(os);
      LiesJoin(OctetText(os[0]), [src[i + 3]], src, i);
    }
  }

  lemma OneOctet(os: seq<Octet>)
    requires |os| == 1
    ensures OctetsText(os) == OctetText(os[0])
  {
    assert os[1..] == [];
    assert OctetText(os[0]) + [] == OctetText(os[0]);
  }

  /** An encoded tilde is one octet. */
  lemma CodedTildeOne(os: seq<Octet>, cp: int)
    requires OkOctets(os) && Utf8.Encodes(OctetsBytes(os), cp)
    ensures cp == 0x7E ==> |os| == 1
  {
  }

  /** ---- Names ---- */

  lemma {:induction false} ReadSigns(src: seq<int>, i: nat, ss: seq<Sign>, fragment: bool, before: seq<int>)
    requires OkSigns(ss, fragment) && Lies(SignsText(ss), src, i)
    requires var e := i + |SignsText(ss)|; e == |src| || (e < |src| && src[e] == SLASH)
    ensures i <= |src| && ParseName(src, i, fragment, before) == Name(before + SignsBytes(ss, fragment), i + |SignsText(ss)|)
    decreases |ss|
  {
    hide ParseName, NextPiece, Lies, OkSign, SignText, SignBytes;
    LiesLength(SignsText(ss), src, i);
    if ss == [] {
      NameEnds(src, i, fragment, before);
      assert before + [] == before;
    } else {
      LiesParts(SignText(ss[0]), SignsText(ss[1..]), src, i);
      ReadSign(src, i, ss[0], fragment);
      ReadSigns(src, i + |SignText(ss[0])|, ss[1..], fragment, before + SignBytes(ss[0], fragment));
      NameGoes(src, i, fragment, before);
      assert before + SignBytes(ss[0], fragment) + SignsBytes(ss[1..], fragment) == before + SignsBytes(ss, fragment);
    }
  }

  lemma {:induction false} SignsAt(src: seq<int>, i: nat, fragment: bool, before: seq<int>) returns (ss: seq<Sign>)
    requires i <= |src| && ParseName(src, i, fragment, before).Name?
    ensures OkSigns(ss, fragment) && Lies(SignsText(ss), src, i)
    ensures ParseName(src, i, fragment, before) == Name(before + SignsBytes(ss, fragment), i + |SignsText(ss)|)
    decreases |src| - i
  {
    hide ParseName, NextPiece, Lies, OkSign, SignText, SignBytes;
    if i == |src| || src[i] == SLASH {
      NameEnds(src, i, fragment, before);
      ss := [];
      LiesNothing(src, i);
      assert before + [] == before;
    } else {
      NameGoes(src, i, fragment, before);
      var s := SignAt(src, i, fragment);
      var next := i + |SignText(s)|;
      var rest := SignsAt(src, next, fragment, before + SignBytes(s, fragment));
      ss := [s] + rest;
      assert ss[1..] == rest;
      LiesJoin(SignText(s), SignsText(rest), src, i);
      assert before + SignBytes(s, fragment) + SignsBytes(rest, fragment) == before + SignsBytes(ss, fragment);
    }
  }

  /** ---- Pointers ---- */

  /** Every part after a slash. */
  function PartsText(parts: seq<seq<int>>): seq<int> {
    if parts == [] then [] else ['/' as int] + parts[0] + PartsText(parts[1..])
  }

  /** src spells the names, each after a slash; a fragment starts with a number sign. */
  ghost predicate Spelling(src: seq<int>, parts: seq<seq<int>>, names: seq<seq<int>>, fragment: bool) {
    && src == (if fragment then ['#' as int] else []) + PartsText(parts) && |parts| == |names|
    && forall i | 0 <= i < |names| :: SpellsName(parts[i], names[i], fragment)
  }

  ghost predicate IsPointer(src: seq<int>, names: seq<seq<int>>) {
    exists parts, fragment :: Spelling(src, parts, names, fragment)
  }

  lemma {:induction false} ReadParts(src: seq<int>, i: nat, parts: seq<seq<int>>, names: seq<seq<int>>, fragment: bool, before: seq<seq<int>>)
    requires i <= |src| && src[i..] == PartsText(parts) && |parts| == |names|
    requires forall k | 0 <= k < |names| :: SpellsName(parts[k], names[k], fragment)
    ensures ParseTokens(src, i, fragment, before) == Tokens(before + names)
    decreases |parts|
  {
    hide ParseTokens, ParseName, SpellsName, Lies;
    if parts == [] {
      NoTokens(src, i, fragment, before);
      assert before + names == before;
    } else {
      var e, more := parts[0], PartsText(parts[1..]);
      TailLies(src, i, e, more);
      NextStarts(src, i + 1 + |e|, more);
      ReadName(src, i + 1, e, names[0], fragment);
      OneToken(src, i, fragment, before);
      ReadParts(src, i + 1 + |e|, parts[1..], names[1..], fragment, before + [names[0]]);
      assert before + [names[0]] + names[1..] == before + names;
    }
  }

  lemma ReadName(src: seq<int>, i: nat, t: seq<int>, name: seq<int>, fragment: bool)
    requires SpellsName(t, name, fragment) && Lies(t, src, i) && (i + |t| == |src| || (i + |t| < |src| && src[i + |t|] == SLASH))
    ensures i <= |src| && ParseName(src, i, fragment, []) == Name(name, i + |t|)
  {
    hide ParseName, OkSigns, Lies;
    var ss :| OkSigns(ss, fragment) && SignsText(ss) == t && SignsBytes(ss, fragment) == name;
    ReadSigns(src, i, ss, fragment, []);
    assert [] + name == name;
  }

  lemma {:induction false} PartsAt(src: seq<int>, i: nat, fragment: bool, before: seq<seq<int>>) returns (parts: seq<seq<int>>, names: seq<seq<int>>)
    requires i <= |src| && ParseTokens(src, i, fragment, before).Tokens? && (i == |src| || src[i] == SLASH)
    ensures src[i..] == PartsText(parts) && |parts| == |names| && ParseTokens(src, i, fragment, before) == Tokens(before + names)
    ensures forall k | 0 <= k < |names| :: SpellsName(parts[k], names[k], fragment)
    decreases |src| - i
  {
    hide ParseName, SpellsName, ParseTokens;
    parts, names := [], [];
    if i == |src| {
      NoTokens(src, i, fragment, before);
      assert before + names == before;
    } else {
      TokenGoes(src, i, fragment, before);
      OneToken(src, i, fragment, before);
      var r := ParseName(src, i + 1, fragment, []);
      NameSpelt(src, i + 1, fragment);
      var moreParts, moreNames := PartsAt(src, r.end, fragment, before + [r.name]);
      parts, names := [src[i + 1..r.end]] + moreParts, [r.name] + moreNames;
      assert parts[1..] == moreParts;
      assert src[i..] == [src[i]] + src[i + 1..r.end] + src[r.end..];
      assert before + [r.name] + moreNames == before + names;
    }
  }

  lemma TokenGoes(src: seq<int>, i: nat, fragment: bool, names: seq<seq<int>>)
    requires i < |src| && ParseTokens(src, i, fragment, names).Tokens?
    ensures ParseName(src, i + 1, fragment, []).Name?
  {
    hide ParseName;
  }

  lemma NameSpelt(src: seq<int>, i: nat, fragment: bool)
    requires i <= |src| && ParseName(src, i, fragment, []).Name?
    ensures var r := ParseName(src, i, fragment, []); i <= r.end <= |src| && SpellsName(src[i..r.end], r.name, fragment)
  {
    hide ParseName, OkSigns;
    var ss := SignsAt(src, i, fragment, []);
    assert [] + SignsBytes(ss, fragment) == SignsBytes(ss, fragment);
  }

  /** POINTERS, EXACTLY: a text parses to the names if and only if it spells them, each after a slash, plainly or after a
      number sign as a fragment. */
  lemma ParsesExactly(src: seq<int>, names: seq<seq<int>>)
    ensures Parse(src) == Tokens(names) <==> IsPointer(src, names)
  {
    hide ParseTokens, SpellsName, PartsText;
    if Parse(src) == Tokens(names) {
      var i := if IsFragment(src) then 1 else 0;
      var parts, found := PartsAt(src, i, IsFragment(src), []);
      assert [] + found == found;
      assert src == src[..i] + src[i..];
      assert Spelling(src, parts, names, IsFragment(src));
    }
    if IsPointer(src, names) {
      var parts, fragment :| Spelling(src, parts, names, fragment);
      SpellingParses(src, parts, names, fragment);
    }
  }

  lemma SpellingParses(src: seq<int>, parts: seq<seq<int>>, names: seq<seq<int>>, fragment: bool)
    requires Spelling(src, parts, names, fragment)
    ensures Parse(src) == Tokens(names)
  {
    hide ParseTokens, SpellsName;
    PartsStart(parts);
    var i := if fragment then 1 else 0;
    assert src[i..] == PartsText(parts);
    assert IsFragment(src) == fragment;
    ReadParts(src, i, parts, names, fragment, []);
    assert [] + names == names;
  }

  lemma PartsStart(parts: seq<seq<int>>)
    ensures PartsText(parts) == [] || PartsText(parts)[0] == '/' as int
  {
  }

  /** ---- Section 4: `~1` first, and then `~0` ---- */

  /** s with every `~` and d replaced by c. */
  function Replaced(s: seq<int>, d: int, c: int): seq<int>
    decreases |s|
  {
    if |s| < 2 then s
    else if s[0] == 0x7E && s[1] == d then [c] + Replaced(s[2..], d, c)
    else [s[0]] + Replaced(s[1..], d, c)
  }

  /** No slash, and a 0 or a 1 after every tilde. */
  predicate IsReferenceToken(t: seq<int>)
    decreases |t|
  {
    t == [] ||
    if t[0] == 0x7E then |t| > 1 && (t[1] == 0x30 || t[1] == 0x31) && IsReferenceToken(t[2..])
    else t[0] != 0x2F && IsReferenceToken(t[1..])
  }

  lemma ReplacedPair(s: seq<int>, rest: seq<int>, d: int, e: int, c: int)
    requires s == [0x7E, e] + rest && e != 0x7E
    ensures Replaced(s, d, c) == if e == d then [c] + Replaced(rest, d, c) else [0x7E, e] + Replaced(rest, d, c)
  {
    assert s[2..] == rest && s[1..] == [e] + rest;
    if e != d {
      ReplacedOne([e] + rest, rest, d, e, c);
      assert [0x7E] + ([e] + Replaced(rest, d, c)) == [0x7E, e] + Replaced(rest, d, c);
    }
  }

  lemma ReplacedOne(s: seq<int>, rest: seq<int>, d: int, e: int, c: int)
    requires s == [e] + rest && e != 0x7E
    ensures Replaced(s, d, c) == [e] + Replaced(rest, d, c)
  {
    assert s[1..] == rest;
    if rest == [] {
      assert [e] + [] == [e];
    }
  }

  /** A NAME IS ITS REFERENCE TOKEN WITH `~1` REPLACED BY A SLASH AND THEN `~0` BY A TILDE. */
  lemma PlainExactly(t: seq<int>, name: seq<int>)
    ensures SpellsName(t, name, false) <==> IsReferenceToken(t) && name == Replaced(Replaced(t, 0x31, 0x2F), 0x30, 0x7E)
  {
    hide OkSigns, IsReferenceToken;
    if SpellsName(t, name, false) {
      var ss :| OkSigns(ss, false) && SignsText(ss) == t && SignsBytes(ss, false) == name;
      SignsReplaced(ss);
    }
    if IsReferenceToken(t) {
      var ss := TokenSigns(t);
      SignsReplaced(ss);
    }
  }

  lemma {:induction false} SignsReplaced(ss: seq<Sign>)
    requires OkSigns(ss, false)
    ensures IsReferenceToken(SignsText(ss))
    ensures SignsBytes(ss, false) == Replaced(Replaced(SignsText(ss), 0x31, 0x2F), 0x30, 0x7E)
    decreases |ss|
  {
    hide Replaced, IsReferenceToken;
    if ss == [] {
      NothingReplaced();
    } else {
      var rest := SignsText(ss[1..]);
      SignsReplaced(ss[1..]);
      if ss[0].Raw? {
        RawReplaced(SignsText(ss), ss[0].c, rest);
      } else {
        TildeReplaced(SignsText(ss), ss[0].digit, rest);
      }
    }
  }

  lemma NothingReplaced()
    ensures IsReferenceToken([]) && Replaced(Replaced([], 0x31, 0x2F), 0x30, 0x7E) == []
  {
  }

  lemma RawReplaced(t: seq<int>, c: int, rest: seq<int>)
    requires t == [c] + rest && c != 0x7E && c != 0x2F && IsReferenceToken(rest)
    ensures IsReferenceToken(t)
    ensures Replaced(Replaced(t, 0x31, 0x2F), 0x30, 0x7E) == [c] + Replaced(Replaced(rest, 0x31, 0x2F), 0x30, 0x7E)
  {
    hide Replaced;
    ReplacedOne(t, rest, 0x31, c, 0x2F);
    ReplacedOne([c] + Replaced(rest, 0x31, 0x2F), Replaced(rest, 0x31, 0x2F), 0x30, c, 0x7E);
    assert t[1..] == rest;
  }

  lemma TildeReplaced(t: seq<int>, digit: int, rest: seq<int>)
    requires t == [0x7E, digit] + rest && (digit == 0x30 || digit == 0x31) && IsReferenceToken(rest)
    ensures IsReferenceToken(t)
    ensures Replaced(Replaced(t, 0x31, 0x2F), 0x30, 0x7E)
         == [if digit == 0x30 then 0x7E else 0x2F] + Replaced(Replaced(rest, 0x31, 0x2F), 0x30, 0x7E)
  {
    hide Replaced;
    var r := Replaced(rest, 0x31, 0x2F);
    ReplacedPair(t, rest, 0x31, digit, 0x2F);
    if digit == 0x31 {
      ReplacedOne([0x2F] + r, r, 0x30, 0x2F, 0x7E);
    } else {
      ReplacedPair([0x7E, digit] + r, r, 0x30, digit, 0x7E);
    }
    assert t[2..] == rest;
  }

  lemma {:induction false} TokenSigns(t: seq<int>) returns (ss: seq<Sign>)
    requires IsReferenceToken(t)
    ensures OkSigns(ss, false) && SignsText(ss) == t
    decreases |t|
  {
    if t == [] {
      ss := [];
    } else if t[0] == 0x7E {
      var rest := TokenSigns(t[2..]);
      ss := [Tilde(t[1])] + rest;
      assert ss[1..] == rest;
      assert t == [t[0], t[1]] + t[2..];
    } else {
      var rest := TokenSigns(t[1..]);
      ss := [Raw(t[0])] + rest;
      assert ss[1..] == rest;
      assert t == [t[0]] + t[1..];
    }
  }
}
