/** Strings: what the parser decodes is exactly what section 7 of RFC 8259 spells, and the writer writes a shortest
    spelling. */
module JsonSpelling {
  import opened Decimals
  import opened JsonEvents
  import opened JsonNumbers
  import opened JsonStrings
  import opened JsonSyntax
  import opened JsonValues
  import JsonRoundTrip
  import JsonWriter
  import Utf8

  /** ---- One piece is read as what it stands for ---- */

  lemma HexAgrees(c: int)
    ensures IsHexDigit(c) <==> HexValue(c) >= 0
    ensures IsHexDigit(c) ==> HexValue(c) == DigitValue(c)
  {
  }

  lemma HexStep(src: seq<int>, pos: nat, n: nat, v: nat)
    requires n > 0
    ensures HexFrom(src, pos, n, v) == if IsHexDigit(At(src, pos)) then HexFrom(src, pos + 1, n - 1, v * 16 + DigitValue(At(src, pos))) else -1
  {
    HexAgrees(At(src, pos));
    hide HexValue, DigitValue, IsHexDigit;
  }

  /** Four digits at a position. */
  predicate HexAt(src: seq<int>, pos: nat) {
    pos + 4 <= |src| && FourDigits(src[pos..pos + 4])
  }

  lemma Hex4Is(src: seq<int>, pos: nat)
    requires IsByteString(src)
    ensures Hex4(src, pos) == if HexAt(src, pos) then CodeUnit(src[pos..pos + 4]) else -1
  {
    hide DigitValue, HexFrom;
    HexStep(src, pos, 4, 0);
    if IsHexDigit(At(src, pos)) {
      var a := DigitValue(At(src, pos));
      HexStep(src, pos + 1, 3, a);
      if IsHexDigit(At(src, pos + 1)) {
        var b := a * 16 + DigitValue(At(src, pos + 1));
        HexStep(src, pos + 2, 2, b);
        if IsHexDigit(At(src, pos + 2)) {
          HexStep(src, pos + 3, 1, b * 16 + DigitValue(At(src, pos + 2)));
          if IsHexDigit(At(src, pos + 3)) {
            JsonRoundTrip.HexNone(src, pos + 4, (b * 16 + DigitValue(At(src, pos + 2))) * 16 + DigitValue(At(src, pos + 3)));
          }
        }
      }
    }
  }

  /** ---- Pieces and what the parser makes of them ---- */

  lemma StandsFour(src: seq<int>, pos: nat, hex: seq<int>)
    requires FourDigits(hex) && Stands(src, pos, hex)
    ensures HexAt(src, pos) && src[pos..pos + 4] == hex
  {
  }

  lemma ShortAgrees(letter: int, d: Dialect)
    ensures ShortMeaning(letter, d) >= 0 <==> Escape(letter) != 0 || (d.apostrophe && letter == '\'' as int)
    ensures Escape(letter) != 0 ==> ShortMeaning(letter, d) == Escape(letter) && letter != 'u' as int
    ensures letter == '\'' as int ==> Escape(letter) == 0 && (d.apostrophe ==> ShortMeaning(letter, d) == letter)
  {
  }

  lemma {:induction false} ReadPiece(src: seq<int>, pos: nat, p: Piece, d: Dialect)
    requires IsByteString(src) && OkPiece(p, d) && Stands(src, pos, PieceText(p))
    ensures pos < |src| && src[pos] != '"' as int
    ensures Unit(src, pos, d.apostrophe) == Read(PieceBytes(p, d), pos + |PieceText(p)|)
  {
    hide Unicode, Utf8.Encodes, CodeUnit, FourDigits, ShortMeaning, Escape;
    JsonRoundTrip.StandsAt(src, pos, PieceText(p), 0);
    match p
    case Plain(c) =>
    case Short(letter) =>
      JsonRoundTrip.StandsAt(src, pos, PieceText(p), 1);
      ShortAgrees(letter, d);
    case Code(hex, bytes) =>
      JsonRoundTrip.StandsAt(src, pos, PieceText(p), 1);
      ReadCode(src, pos, hex, bytes);
      NoShortU(d);
    case Pair(high, low, bytes) =>
      JsonRoundTrip.StandsAt(src, pos, PieceText(p), 1);
      ReadPair(src, pos, high, low, bytes);
      NoShortU(d);
  }

  lemma NoShortU(d: Dialect)
    ensures Escape('u' as int) == 0
  {
  }

  lemma ReadCode(src: seq<int>, pos: nat, hex: seq<int>, bytes: seq<int>)
    requires IsByteString(src) && Stands(src, pos, ['\\' as int, 'u' as int] + hex)
    requires FourDigits(hex) && !(0xD800 <= CodeUnit(hex) <= 0xDFFF) && Utf8.Encodes(bytes, CodeUnit(hex))
    ensures |hex| == 4 && Unicode(src, pos + 2, pos) == Read(bytes, pos + 6)
  {
    hide Hex4, Utf8.Encodes, Utf8.Encode, CodeUnit, Stands;
    JsonRoundTrip.StandsBoth(src, pos, ['\\' as int, 'u' as int], hex);
    StandsFour(src, pos + 2, hex);
    Hex4Is(src, pos + 2);
    Utf8.EncodeIs(bytes, CodeUnit(hex));
  }

  lemma ReadPair(src: seq<int>, pos: nat, high: seq<int>, low: seq<int>, bytes: seq<int>)
    requires IsByteString(src) && Stands(src, pos, ['\\' as int, 'u' as int] + high + (['\\' as int, 'u' as int] + low))
    requires FourDigits(high) && 0xD800 <= CodeUnit(high) <= 0xDBFF && FourDigits(low) && 0xDC00 <= CodeUnit(low) <= 0xDFFF
    requires Utf8.Encodes(bytes, 0x10000 + (CodeUnit(high) - 0xD800) * 0x400 + (CodeUnit(low) - 0xDC00))
    ensures |high| == |low| == 4 && Unicode(src, pos + 2, pos) == Read(bytes, pos + 12)
  {
    hide Hex4, Utf8.Encodes, Utf8.Encode, CodeUnit, Stands;
    var u := ['\\' as int, 'u' as int];
    JsonRoundTrip.StandsBoth(src, pos, u + high, u + low);
    JsonRoundTrip.StandsBoth(src, pos, u, high);
    JsonRoundTrip.StandsBoth(src, pos + 6, u, low);
    JsonRoundTrip.StandsAt(src, pos + 6, u, 0);
    JsonRoundTrip.StandsAt(src, pos + 6, u, 1);
    StandsFour(src, pos + 2, high);
    StandsFour(src, pos + 8, low);
    Hex4Is(src, pos + 2);
    Hex4Is(src, pos + 8);
    Utf8.EncodeIs(bytes, 0x10000 + (CodeUnit(high) - 0xD800) * 0x400 + (CodeUnit(low) - 0xDC00));
  }

  lemma StandsJoin(src: seq<int>, pos: nat, a: seq<int>, b: seq<int>)
    requires Stands(src, pos, a) && Stands(src, pos + |a|, b)
    ensures Stands(src, pos, a + b)
  {
    assert src[pos..pos + |a + b|] == src[pos..pos + |a|] + src[pos + |a|..pos + |a| + |b|];
  }

  lemma StandsTwo(src: seq<int>, pos: nat, a: int, b: int)
    requires pos + 2 <= |src| && src[pos] == a && src[pos + 1] == b
    ensures Stands(src, pos, [a, b])
  {
    assert src[pos..pos + 2] == [a, b];
  }

  /** What the parser takes as one character is a piece. */
  lemma UnitPiece(src: seq<int>, pos: nat, d: Dialect) returns (p: Piece)
    requires IsByteString(src) && At(src, pos) != '"' as int && Unit(src, pos, d.apostrophe).Read?
    ensures OkPiece(p, d) && Stands(src, pos, PieceText(p))
    ensures Unit(src, pos, d.apostrophe) == Read(PieceBytes(p, d), pos + |PieceText(p)|)
  {
    hide Unicode, Utf8.Encodes, CodeUnit, FourDigits, ShortMeaning, Escape;
    if src[pos] != '\\' as int {
      p := Plain(src[pos]);
      assert src[pos..pos + 1] == [src[pos]];
    } else {
      var e := At(src, pos + 1);
      ShortAgrees(e, d);
      if ShortMeaning(e, d) >= 0 {
        p := Short(e);
        StandsTwo(src, pos, '\\' as int, e);
      } else {
        StandsTwo(src, pos, '\\' as int, 'u' as int);
        p := UnicodePiece(src, pos, d);
      }
    }
  }

  lemma UnicodePiece(src: seq<int>, pos: nat, d: Dialect) returns (p: Piece)
    requires IsByteString(src) && Stands(src, pos, ['\\' as int, 'u' as int]) && Unicode(src, pos + 2, pos).Read?
    ensures OkPiece(p, d) && Stands(src, pos, PieceText(p))
    ensures Unicode(src, pos + 2, pos) == Read(PieceBytes(p, d), pos + |PieceText(p)|)
  {
    hide Hex4, Utf8.Encodes, Utf8.Encode, CodeUnit, Stands, FourDigits;
    var bytes, slash := Unicode(src, pos + 2, pos).value, ['\\' as int, 'u' as int];
    Hex4Is(src, pos + 2);
    var high := src[pos + 2..pos + 6];
    StandsSlice(src, pos + 2, pos + 6);
    StandsJoin(src, pos, slash, high);
    if 0xD800 <= CodeUnit(high) <= 0xDFFF {
      Hex4Is(src, pos + 8);
      var low := src[pos + 8..pos + 12];
      StandsSlice(src, pos + 8, pos + 12);
      StandsTwo(src, pos + 6, '\\' as int, 'u' as int);
      StandsJoin(src, pos + 6, slash, low);
      StandsJoin(src, pos, slash + high, slash + low);
      Utf8.EncodeIs(bytes, 0x10000 + (CodeUnit(high) - 0xD800) * 0x400 + (CodeUnit(low) - 0xDC00));
      p := Pair(high, low, bytes);
    } else {
      Utf8.EncodeIs(bytes, CodeUnit(high));
      p := Code(high, bytes);
    }
  }

  lemma StandsSlice(src: seq<int>, from: nat, to: nat)
    requires from <= to <= |src|
    ensures Stands(src, from, src[from..to])
  {
  }

  /** ---- Strings ---- */

  /** EVERY SPELLING IS DECODED: wherever pieces and a closing quote stand, the parser finds the bytes they stand for. */
  lemma {:induction false} ReadPieces(src: seq<int>, pos: nat, ps: seq<Piece>, d: Dialect)
    requires IsByteString(src) && OkPieces(ps, d) && Stands(src, pos, PiecesText(ps))
    requires At(src, pos + |PiecesText(ps)|) == '"' as int
    ensures Decoded(src, pos, d.apostrophe) == Read(PiecesBytes(ps, d), pos + |PiecesText(ps)| + 1)
    decreases |ps|
  {
    hide Decoded, Unit, OkPiece, PieceText, PieceBytes, Stands;
    StandsWithin(src, pos, PiecesText(ps));
    DecodedStep(src, pos, d.apostrophe);
    if ps != [] {
      JsonRoundTrip.StandsBoth(src, pos, PieceText(ps[0]), PiecesText(ps[1..]));
      ReadPiece(src, pos, ps[0], d);
      ReadPieces(src, pos + |PieceText(ps[0])|, ps[1..], d);
    }
  }

  lemma StandsWithin(src: seq<int>, pos: nat, t: seq<int>)
    requires Stands(src, pos, t)
    ensures pos + |t| <= |src|
  {
  }

  /** WHAT IS DECODED IS SPELT: the bytes the parser finds are those of pieces that stand there, closed by a quote. */
  lemma {:induction false} DecodedPieces(src: seq<int>, pos: nat, d: Dialect) returns (ps: seq<Piece>)
    requires IsByteString(src) && pos <= |src| && Decoded(src, pos, d.apostrophe).Read?
    ensures OkPieces(ps, d) && Stands(src, pos, PiecesText(ps)) && At(src, pos + |PiecesText(ps)|) == '"' as int
    ensures Decoded(src, pos, d.apostrophe) == Read(PiecesBytes(ps, d), pos + |PiecesText(ps)| + 1)
    decreases |src| - pos
  {
    hide Decoded, Unit, OkPiece, PieceText, PieceBytes, Stands;
    DecodedStep(src, pos, d.apostrophe);
    if At(src, pos) == '"' as int {
      ps := [];
      StandsSlice(src, pos, pos);
      assert src[pos..pos] == [];
    } else {
      var p := UnitPiece(src, pos, d);
      var rest := DecodedPieces(src, pos + |PieceText(p)|, d);
      ps := [p] + rest;
      assert ps[1..] == rest;
      StandsJoin(src, pos, PieceText(p), PiecesText(rest));
    }
  }

  /** STRINGS, EXACTLY: from an opening quote the parser reads s up to `end` if and only if the bytes between that quote
      and one before `end` spell s. */
  lemma StringsExactly(src: seq<int>, pos: nat, s: seq<int>, end: nat, d: Dialect)
    requires IsByteString(src) && pos < |src|
    ensures ScanString(src, pos, d.apostrophe) == Read(s, end)
       <==> (pos + 2 <= end <= |src| && src[end - 1] == '"' as int && Spells(src[pos + 1..end - 1], s, d))
  {
    hide Decoded, OkPieces, PiecesText, PiecesBytes;
    if ScanString(src, pos, d.apostrophe) == Read(s, end) {
      var ps := DecodedPieces(src, pos + 1, d);
      assert src[pos + 1..end - 1] == PiecesText(ps);
    }
    if pos + 2 <= end <= |src| && src[end - 1] == '"' as int && Spells(src[pos + 1..end - 1], s, d) {
      var ps :| OkPieces(ps, d) && PiecesText(ps) == src[pos + 1..end - 1] && PiecesBytes(ps, d) == s;
      ReadPieces(src, pos + 1, ps, d);
    }
  }

  /** ---- The writer ---- */

  /** What the writer puts between quotes spells the string. */
  lemma QuotedSpells(s: seq<int>, d: Dialect)
    requires IsByteString(s)
    ensures Spells(JsonWriter.QuotedBytes(s), s, d)
  {
    hide Decoded, Spells, JsonWriter.QuotedBytes, ScanString;
    var src := JsonWriter.Quoted(s);
    QuotedIsBytes(s);
    assert src[0..|src|] == src;
    JsonRoundTrip.ReadQuoted(src, 0, s, d.apostrophe);
    StringsExactly(src, 0, s, |src|, d);
    assert src[1..|src| - 1] == JsonWriter.QuotedBytes(s);
  }

  lemma {:induction false} QuotedIsBytes(s: seq<int>)
    requires IsByteString(s)
    ensures IsByteString(JsonWriter.QuotedBytes(s)) && IsByteString(JsonWriter.Quoted(s))
  {
    if s != [] {
      QuotedIsBytes(s[..|s| - 1]);
    }
  }

  lemma {:induction false} QuotedAdd(a: seq<int>, b: seq<int>)
    ensures JsonWriter.QuotedBytes(a + b) == JsonWriter.QuotedBytes(a) + JsonWriter.QuotedBytes(b)
    decreases |b|
  {
    hide JsonWriter.QuotedByte;
    if b == [] {
      assert a + b == a;
    } else {
      QuotedAdd(a, b[..|b| - 1]);
      assert (a + b)[..|a + b| - 1] == a + b[..|b| - 1];
    }
  }

  lemma QuotedOne(c: int)
    ensures JsonWriter.QuotedBytes([c]) == JsonWriter.QuotedByte(c)
  {
    hide JsonWriter.QuotedByte;
    assert [c][..0] == [];
    assert JsonWriter.QuotedBytes([]) == [];
  }

  /** Bytes that are written as they are. */
  lemma {:induction false} QuotedPlain(s: seq<int>)
    requires forall i | 0 <= i < |s| :: s[i] >= 0x80
    ensures |JsonWriter.QuotedBytes(s)| == |s|
  {
    if s != [] {
      QuotedPlain(s[..|s| - 1]);
    }
  }

  lemma PieceShortest(p: Piece, d: Dialect)
    requires OkPiece(p, d)
    ensures |JsonWriter.QuotedBytes(PieceBytes(p, d))| <= |PieceText(p)|
  {
    hide JsonWriter.QuotedBytes, CodeUnit;
    var bytes := PieceBytes(p, d);
    if |bytes| == 1 {
      assert bytes == [bytes[0]];
      QuotedOne(bytes[0]);
    } else {
      TailsPlain(p, d);
      QuotedPlain(bytes);
    }
  }

  lemma TailsPlain(p: Piece, d: Dialect)
    requires OkPiece(p, d) && |PieceBytes(p, d)| != 1
    ensures p.Code? || p.Pair?
    ensures |PieceBytes(p, d)| <= 4 <= |PieceText(p)| && forall i | 0 <= i < |PieceBytes(p, d)| :: PieceBytes(p, d)[i] >= 0x80
  {
    hide CodeUnit;
  }

  /** NO SPELLING IS SHORTER than what the writer writes. */
  lemma QuotedShortest(t: seq<int>, s: seq<int>, d: Dialect)
    requires Spells(t, s, d)
    ensures |JsonWriter.QuotedBytes(s)| <= |t|
  {
    hide OkPieces, JsonWriter.QuotedBytes;
    var ps :| OkPieces(ps, d) && PiecesText(ps) == t && PiecesBytes(ps, d) == s;
    PiecesShortest(ps, d);
  }

  lemma {:induction false} PiecesShortest(ps: seq<Piece>, d: Dialect)
    requires OkPieces(ps, d)
    ensures |JsonWriter.QuotedBytes(PiecesBytes(ps, d))| <= |PiecesText(ps)|
    decreases |ps|
  {
    hide OkPiece, PieceText, PieceBytes;
    if ps != [] {
      PieceShortest(ps[0], d);
      PiecesShortest(ps[1..], d);
      QuotedAdd(PieceBytes(ps[0], d), PiecesBytes(ps[1..], d));
    }
  }
}
