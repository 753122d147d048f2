/** Section 6 of RFC 6901 has a fragment percent-decoded first and read as a pointer then; the code undoes the encoding
    within names. When the two agree. */
module PointerFragments {
  import opened Decimals
  import opened Pointers
  import opened PointerSyntax
  import opened Wrappers
  import Utf8

  predicate StartsTriplet(t: seq<int>) {
    |t| > 2 && t[0] == '%' as int && IsHexDigit(t[1]) && IsHexDigit(t[2])
  }

  /** Every triplet replaced by its byte. */
  function Unquoted(t: seq<int>): seq<int>
    decreases |t|
  {
    if t == [] then []
    else if StartsTriplet(t) then [DigitValue(t[1]) * 16 + DigitValue(t[2])] + Unquoted(t[3..])
    else [t[0]] + Unquoted(t[1..])
  }

  /** Some triplet is that of a slash. */
  predicate HasEncodedSlash(t: seq<int>)
    decreases |t|
  {
    t != [] &&
    if StartsTriplet(t) then DigitValue(t[1]) * 16 + DigitValue(t[2]) == '/' as int || HasEncodedSlash(t[3..])
    else HasEncodedSlash(t[1..])
  }

  function Slashes(t: seq<int>): nat
    decreases |t|
  {
    if t == [] then 0 else (if t[0] == '/' as int then 1 else 0) + Slashes(t[1..])
  }

  lemma {:induction false} SlashesAdd(a: seq<int>, b: seq<int>)
    ensures Slashes(a + b) == Slashes(a) + Slashes(b)
    decreases |a|
  {
    if a == [] {
      assert a + b == b;
    } else {
      assert (a + b)[1..] == a[1..] + b;
      SlashesAdd(a[1..], b);
    }
  }

  /** ---- Signs, decoded ---- */

  function PlainText(s: Sign): seq<int>
    requires OkSign(s, true)
  {
    match s
    case Raw(c) => [c]
    case Tilde(digit) => [0x7E, digit]
    case Coded(os, _) => OctetsBytes(os)
    case CodedTilde(_, digit) => [0x7E, digit]
  }

  function PlainTexts(ss: seq<Sign>): seq<int>
    requires OkSigns(ss, true)
  {
    if ss == [] then [] else PlainText(ss[0]) + PlainTexts(ss[1..])
  }

  predicate IsSlash(s: Sign) {
    s.Coded? && s.cp == 0x2F
  }

  lemma OneUnquoted(c: int, rest: seq<int>)
    requires c != '%' as int
    ensures Unquoted([c] + rest) == [c] + Unquoted(rest) && (HasEncodedSlash([c] + rest) <==> HasEncodedSlash(rest))
  {
    assert ([c] + rest)[1..] == rest;
  }

  lemma OctetUnquoted(o: Octet, rest: seq<int>)
    requires OkOctet(o)
    ensures Unquoted(OctetText(o) + rest) == [OctetValue(o)] + Unquoted(rest)
    ensures HasEncodedSlash(OctetText(o) + rest) <==> OctetValue(o) == 0x2F || HasEncodedSlash(rest)
  {
    hide IsHexDigit, DigitValue;
    assert (OctetText(o) + rest)[3..] == rest;
  }

  lemma {:induction false} OctetsUnquoted(os: seq<Octet>, rest: seq<int>)
    requires OkOctets(os)
    ensures Unquoted(OctetsText(os) + rest) == OctetsBytes(os) + Unquoted(rest)
    ensures HasEncodedSlash(OctetsText(os) + rest) <==> 0x2F in OctetsBytes(os) || HasEncodedSlash(rest)
    decreases |os|
  {
    hide OkOctet, OctetText, OctetValue, Unquoted, HasEncodedSlash;
    if os == [] {
      assert [] + rest == rest && OctetsBytes(os) == [];
      assert [] + Unquoted(rest) == Unquoted(rest);
    } else {
      var more := OctetsText(os[1..]) + rest;
      assert OctetsText(os) + rest == OctetText(os[0]) + more;
      OctetUnquoted(os[0], more);
      OctetsUnquoted(os[1..], rest);
      assert OctetsBytes(os) == [OctetValue(os[0])] + OctetsBytes(os[1..]);
      assert [OctetValue(os[0])] + (OctetsBytes(os[1..]) + Unquoted(rest)) == OctetsBytes(os) + Unquoted(rest);
    }
  }

  lemma SlashBytes(os: seq<Octet>, cp: int)
    requires OkOctets(os) && Utf8.Encodes(OctetsBytes(os), cp)
    ensures 0x2F in OctetsBytes(os) <==> cp == 0x2F
    ensures cp != 0x7E ==> 0x7E !in OctetsBytes(os)
    ensures Slashes(OctetsBytes(os)) > 0 <==> cp == 0x2F
  {
    hide OctetValue;
    SlashesIn(OctetsBytes(os));
  }

  lemma {:induction false} SlashesIn(t: seq<int>)
    ensures Slashes(t) > 0 <==> 0x2F in t
    decreases |t|
  {
    if t != [] {
      SlashesIn(t[1..]);
      assert t == [t[0]] + t[1..];
    }
  }

  lemma SignUnquoted(s: Sign, rest: seq<int>)
    requires OkSign(s, true)
    ensures Unquoted(SignText(s) + rest) == PlainText(s) + Unquoted(rest)
    ensures HasEncodedSlash(SignText(s) + rest) <==> IsSlash(s) || HasEncodedSlash(rest)
  {
    hide Unquoted, HasEncodedSlash, Utf8.Encodes, OctetValue, OctetText, OctetsText, OkOctet, OkOctets;
    match s
    case Raw(c) => OneUnquoted(c, rest);
    case Tilde(digit) => TildeUnquoted(digit, rest);
    case Coded(os, cp) =>
      OctetsUnquoted(os, rest);
      SlashBytes(os, cp);
    case CodedTilde(o, digit) =>
      assert OctetText(o) + [digit] + rest == OctetText(o) + ([digit] + rest);
      OctetUnquoted(o, [digit] + rest);
      OneUnquoted(digit, rest);
      assert [0x7E] + ([digit] + Unquoted(rest)) == [0x7E, digit] + Unquoted(rest);
  }

  lemma TildeUnquoted(digit: int, rest: seq<int>)
    requires digit == 0x30 || digit == 0x31
    ensures Unquoted([0x7E, digit] + rest) == [0x7E, digit] + Unquoted(rest)
    ensures HasEncodedSlash([0x7E, digit] + rest) <==> HasEncodedSlash(rest)
  {
    hide Unquoted, HasEncodedSlash;
    assert [0x7E, digit] + rest == [0x7E] + ([digit] + rest);
    OneUnquoted(0x7E, [digit] + rest);
    OneUnquoted(digit, rest);
    assert [0x7E] + ([digit] + Unquoted(rest)) == [0x7E, digit] + Unquoted(rest);
  }

  predicate AnySlash(ss: seq<Sign>) {
    ss != [] && (IsSlash(ss[0]) || AnySlash(ss[1..]))
  }

  lemma {:induction false} SignsUnquoted(ss: seq<Sign>, rest: seq<int>)
    requires OkSigns(ss, true)
    ensures Unquoted(SignsText(ss) + rest) == PlainTexts(ss) + Unquoted(rest)
    ensures HasEncodedSlash(SignsText(ss) + rest) <==> AnySlash(ss) || HasEncodedSlash(rest)
    decreases |ss|
  {
    hide Unquoted, HasEncodedSlash, OkSign, SignText, PlainText, IsSlash;
    if ss == [] {
      assert [] + rest == rest;
      assert [] + Unquoted(rest) == Unquoted(rest);
    } else {
      var more := SignsText(ss[1..]) + rest;
      assert SignsText(ss) + rest == SignText(ss[0]) + more;
      SignUnquoted(ss[0], more);
      SignsUnquoted(ss[1..], rest);
      assert PlainText(ss[0]) + (PlainTexts(ss[1..]) + Unquoted(rest)) == PlainTexts(ss) + Unquoted(rest);
    }
  }

  /** Without an encoded slash, the decoded text spells the same name plainly. */
  lemma {:induction false} PlainSpells(ss: seq<Sign>)
    requires OkSigns(ss, true) && !AnySlash(ss)
    ensures SpellsName(PlainTexts(ss), SignsBytes(ss, true), false)
    decreases |ss|
  {
    hide OkSign, PlainText, SignBytes, IsSlash, SpellsName;
    if ss == [] {
      NothingSpelt();
    } else {
      PlainSpells(ss[1..]);
      PlainSign(ss[0]);
      SpellsMore(PlainText(ss[0]), SignBytes(ss[0], true), PlainTexts(ss[1..]), SignsBytes(ss[1..], true));
    }
  }

  lemma NothingSpelt()
    ensures SpellsName([], [], false)
  {
    assert OkSigns([], false) && SignsText([]) == [] && SignsBytes([], false) == [];
  }

  lemma SpellsMore(a: seq<int>, x: seq<int>, b: seq<int>, y: seq<int>)
    requires SpellsName(a, x, false) && SpellsName(b, y, false)
    ensures SpellsName(a + b, x + y, false)
  {
    hide OkSigns, SignsText, SignsBytes;
    var ss :| OkSigns(ss, false) && SignsText(ss) == a && SignsBytes(ss, false) == x;
    var tt :| OkSigns(tt, false) && SignsText(tt) == b && SignsBytes(tt, false) == y;
    SignsJoin(ss, tt);
  }

  lemma {:induction false} SignsJoin(ss: seq<Sign>, tt: seq<Sign>)
    requires OkSigns(ss, false) && OkSigns(tt, false)
    ensures OkSigns(ss + tt, false)
    ensures SignsText(ss + tt) == SignsText(ss) + SignsText(tt) && SignsBytes(ss + tt, false) == SignsBytes(ss, false) + SignsBytes(tt, false)
    decreases |ss|
  {
    hide OkSign, SignText, SignBytes;
    if ss == [] {
      assert ss + tt == tt;
    } else {
      assert (ss + tt)[1..] == ss[1..] + tt;
      SignsJoin(ss[1..], tt);
    }
  }

  lemma PlainSign(s: Sign)
    requires OkSign(s, true) && !IsSlash(s)
    ensures SpellsName(PlainText(s), SignBytes(s, true), false)
  {
    hide Utf8.Encodes, OctetValue, OkOctet, SpellsName, IsUnreserved;
    match s
    case Raw(c) =>
      UnreservedAgrees(c);
      RawSpells(c);
    case Tilde(digit) => TildeSpells(digit);
    case Coded(os, cp) =>
      SlashBytes(os, cp);
      RawsSpell(OctetsBytes(os));
    case CodedTilde(_, digit) => TildeSpells(digit);
  }

  lemma SignSpells(s: Sign)
    requires OkSign(s, false)
    ensures SpellsName(SignText(s), SignBytes(s, false), false)
  {
    hide OkSign, SignText, SignBytes;
    var ss := [s];
    assert ss[1..] == [];
    assert SignText(s) + [] == SignText(s);
    assert SignBytes(s, false) + [] == SignBytes(s, false);
    assert OkSigns(ss, false);
    assert SignsText(ss) == SignText(s);
    assert SignsBytes(ss, false) == SignBytes(s, false);
  }

  lemma RawSpells(c: int)
    requires c != 0x7E && c != 0x2F
    ensures SpellsName([c], [c], false)
  {
    hide SpellsName;
    SignSpells(Raw(c));
  }

  lemma TildeSpells(digit: int)
    requires digit == 0x30 || digit == 0x31
    ensures SpellsName([0x7E, digit], [if digit == 0x30 then 0x7E else 0x2F], false)
  {
    hide SpellsName;
    SignSpells(Tilde(digit));
  }

  lemma {:induction false} RawsSpell(t: seq<int>)
    requires 0x7E !in t && 0x2F !in t
    ensures SpellsName(t, t, false)
    decreases |t|
  {
    hide SpellsName;
    if t == [] {
      NothingSpelt();
    } else {
      RawSpells(t[0]);
      RawsSpell(t[1..]);
      SpellsMore([t[0]], [t[0]], t[1..], t[1..]);
      assert t == [t[0]] + t[1..];
    }
  }

  lemma {:induction false} PlainSlashes(ss: seq<Sign>)
    requires OkSigns(ss, true)
    ensures Slashes(PlainTexts(ss)) > 0 <==> AnySlash(ss)
    decreases |ss|
  {
    hide OkSign, PlainText, IsSlash, Slashes;
    if ss == [] {
      assert Slashes([]) == 0 by { NoSlashes(); }
    } else {
      SlashesAdd(PlainText(ss[0]), PlainTexts(ss[1..]));
      PlainSlashes(ss[1..]);
      SignSlashes(ss[0]);
    }
  }

  lemma NoSlashes()
    ensures Slashes([]) == 0
  {
  }

  lemma SignSlashes(s: Sign)
    requires OkSign(s, true)
    ensures Slashes(PlainText(s)) > 0 <==> IsSlash(s)
  {
    hide Utf8.Encodes, OctetValue, OkOctet, Slashes;
    SlashesIn(PlainText(s));
    match s
    case Raw(c) => UnreservedAgrees(c);
    case Coded(os, cp) => SlashBytes(os, cp);
    case _ =>
  }

  /** ---- Pointers ---- */

  /** One part: decoded, it spells the same name, unless a slash is encoded in it, which it then holds. */
  lemma PartUnquoted(part: seq<int>, name: seq<int>, rest: seq<int>)
    requires SpellsName(part, name, true)
    ensures Unquoted(part + rest) == Unquoted(part) + Unquoted(rest)
    ensures HasEncodedSlash(part + rest) <==> HasEncodedSlash(part) || HasEncodedSlash(rest)
    ensures !HasEncodedSlash(part) ==> SpellsName(Unquoted(part), name, false)
    ensures HasEncodedSlash(part) ==> Slashes(Unquoted(part)) > 0
  {
    hide Unquoted, HasEncodedSlash, OkSigns, SignsText, SignsBytes, PlainTexts, Slashes;
    var ss :| OkSigns(ss, true) && SignsText(ss) == part && SignsBytes(ss, true) == name;
    SignsUnquoted(ss, rest);
    SignsUnquoted(ss, []);
    NothingUnquoted();
    assert part + [] == part && PlainTexts(ss) + [] == PlainTexts(ss);
    PlainSlashes(ss);
    if !AnySlash(ss) {
      PlainSpells(ss);
    }
  }

  lemma NothingUnquoted()
    ensures Unquoted([]) == [] && !HasEncodedSlash([])
  {
  }

  function UnquotedAll(parts: seq<seq<int>>): (us: seq<seq<int>>)
    ensures |us| == |parts| && forall i | 0 <= i < |parts| :: us[i] == Unquoted(parts[i])
  {
    seq(|parts|, i requires 0 <= i < |parts| => Unquoted(parts[i]))
  }

  lemma {:induction false} PartsUnquoted(parts: seq<seq<int>>, names: seq<seq<int>>)
    requires |parts| == |names| && forall i | 0 <= i < |names| :: SpellsName(parts[i], names[i], true)
    ensures Unquoted(PartsText(parts)) == PartsText(UnquotedAll(parts))
    ensures !HasEncodedSlash(PartsText(parts)) ==> forall i | 0 <= i < |names| :: SpellsName(UnquotedAll(parts)[i], names[i], false)
    ensures HasEncodedSlash(PartsText(parts)) ==> Slashes(PartsText(UnquotedAll(parts))) > |names|
    ensures Slashes(PartsText(UnquotedAll(parts))) >= |names|
    decreases |parts|
  {
    hide Unquoted, HasEncodedSlash, SpellsName, Slashes;
    if parts == [] {
      NothingUnquoted();
      NoSlashes();
    } else {
      var more, us := PartsText(parts[1..]), UnquotedAll(parts);
      PartsUnquoted(parts[1..], names[1..]);
      assert UnquotedAll(parts[1..]) == us[1..];
      assert PartsText(parts) == ['/' as int] + (parts[0] + more);
      OneUnquoted('/' as int, parts[0] + more);
      PartUnquoted(parts[0], names[0], more);
      assert ['/' as int] + (us[0] + PartsText(us[1..])) == PartsText(us);
      PartSlashes(us);
    }
  }

  lemma PartSlashes(us: seq<seq<int>>)
    requires us != []
    ensures Slashes(PartsText(us)) == 1 + Slashes(us[0]) + Slashes(PartsText(us[1..]))
  {
    hide Slashes;
    SlashesAdd(['/' as int] + us[0], PartsText(us[1..]));
    SlashesAdd(['/' as int], us[0]);
    OneSlash();
  }

  lemma OneSlash()
    ensures Slashes(['/' as int]) == 1
  {
    assert ['/' as int][1..] == [];
  }

  /** Plain pointers have a slash for every name and no other. */
  lemma {:induction false} PlainPointerSlashes(parts: seq<seq<int>>, names: seq<seq<int>>)
    requires |parts| == |names| && forall i | 0 <= i < |names| :: SpellsName(parts[i], names[i], false)
    ensures Slashes(PartsText(parts)) == |names|
    decreases |parts|
  {
    hide SpellsName, Slashes;
    if parts == [] {
      NoSlashes();
    } else {
      PlainPointerSlashes(parts[1..], names[1..]);
      PartSlashes(parts);
      PlainExactly(parts[0], names[0]);
      TokenSlashes(parts[0]);
    }
  }

  lemma {:induction false} TokenSlashes(t: seq<int>)
    requires IsReferenceToken(t)
    ensures Slashes(t) == 0
    decreases |t|
  {
    if t != [] {
      if t[0] == 0x7E {
        TokenSlashes(t[2..]);
        assert t[1..][1..] == t[2..];
      } else {
        TokenSlashes(t[1..]);
      }
    }
  }

  /** A FRAGMENT MEANS WHAT ITS DECODED TEXT MEANS if and only if no slash is percent-encoded in it. */
  lemma DecodedFirstIff(src: seq<int>, names: seq<seq<int>>)
    requires IsFragment(src) && Parse(src) == Tokens(names)
    ensures Parse(Unquoted(src[1..])) == Tokens(names) <==> !HasEncodedSlash(src[1..])
  {
    hide Parse, Unquoted, HasEncodedSlash, SpellsName, Slashes, PartsText;
    ParsesExactly(src, names);
    var parts, fragment :| Spelling(src, parts, names, fragment);
    FragmentParts(src, parts, fragment);
    var text := Unquoted(src[1..]);
    PartsUnquoted(parts, names);
    ParsesExactly(text, names);
    if !HasEncodedSlash(src[1..]) {
      assert [] + PartsText(UnquotedAll(parts)) == PartsText(UnquotedAll(parts));
      assert Spelling(text, UnquotedAll(parts), names, false);
    }
    if IsPointer(text, names) {
      var plain, fragment' :| Spelling(text, plain, names, fragment');
      PartsStart(UnquotedAll(parts));
      PlainOnly(text, plain, fragment');
      PlainPointerSlashes(plain, names);
    }
  }

  lemma FragmentParts(src: seq<int>, parts: seq<seq<int>>, fragment: bool)
    requires IsFragment(src) && src == (if fragment then ['#' as int] else []) + PartsText(parts)
    ensures fragment && src[1..] == PartsText(parts)
  {
    PartsStart(parts);
  }

  lemma PlainOnly(text: seq<int>, parts: seq<seq<int>>, fragment: bool)
    requires (text == [] || text[0] == '/' as int) && text == (if fragment then ['#' as int] else []) + PartsText(parts)
    ensures !fragment && text == PartsText(parts)
  {
    hide PartsText;
    assert [] + PartsText(parts) == PartsText(parts);
  }

  const ENCODED_SLASH := ['%' as int, '2' as int, 'F' as int]

  /** "#/%2F" is one name, a slash; decoded first, it would be two empty ones. */
  lemma EncodedSlash()
    ensures var src := ['#' as int, '/' as int] + ENCODED_SLASH;
            && Parse(src) == Tokens([['/' as int]]) && HasEncodedSlash(src[1..])
            && Unquoted(src[1..]) == ['/' as int, '/' as int] && Parse(['/' as int, '/' as int]) == Tokens([[], []])
  {
    hide Parse, Unquoted, HasEncodedSlash, SpellsName;
    var src := ['#' as int, '/' as int] + ENCODED_SLASH;
    assert src[1..] == ['/' as int] + ENCODED_SLASH;
    SlashUnquoted();
    SlashSpelt();
    var parts, names := [ENCODED_SLASH], [['/' as int]];
    assert parts[1..] == [] && PartsText(parts) == ['/' as int] + ENCODED_SLASH + [];
    assert Spelling(src, parts, names, true);
    ParsesExactly(src, names);
    TwoEmpty();
  }

  lemma SlashUnquoted()
    ensures Unquoted(['/' as int] + ENCODED_SLASH) == ['/' as int, '/' as int] && HasEncodedSlash(['/' as int] + ENCODED_SLASH)
  {
    hide Unquoted, HasEncodedSlash;
    var o := Octet('2' as int, 'F' as int);
    OneUnquoted('/' as int, ENCODED_SLASH);
    OctetUnquoted(o, []);
    NothingUnquoted();
    assert OctetText(o) + [] == ENCODED_SLASH;
  }

  lemma SlashSpelt()
    ensures SpellsName(ENCODED_SLASH, ['/' as int], true)
  {
    var o := Octet('2' as int, 'F' as int);
    var ss := [Coded([o], 0x2F)];
    OneOctet([o]);
    assert ss[1..] == [];
    assert OctetsBytes([o]) == ['/' as int];
    assert SignsText(ss) == OctetText(o) + [] == ENCODED_SLASH;
    assert SignsBytes(ss, true) == ['/' as int] + [];
    assert OkSigns(ss, true) && SignsBytes(ss, true) == ['/' as int];
  }

  lemma TwoEmpty()
    ensures Parse(['/' as int, '/' as int]) == Tokens([[], []])
  {
    hide Parse, SpellsName;
    NothingSpelt();
    var parts: seq<seq<int>> := [[], []];
    var last: seq<seq<int>> := [[]];
    assert parts[1..] == last && last[1..] == [];
    assert PartsText(last) == ['/' as int];
    assert PartsText(parts) == ['/' as int, '/' as int];
    assert Spelling(['/' as int, '/' as int], parts, [[], []], false);
    ParsesExactly(['/' as int, '/' as int], [[], []]);
  }
}
