/** The regular languages that the engine of internal/regex.h is meant to decide: atoms, the six core
    operators its fragments implement, and membership of a word in the language of an expression. */
module RegexLanguage {

  /** One-character patterns: a literal, `.`, or a character class. A class matches when the code point lies
      in one of its ranges, or, negated, in none. */
  datatype Atom = Char(c: int) | AnyChar | Class(negated: bool, ranges: seq<(int, int)>)

  predicate InRanges(ranges: seq<(int, int)>, c: int) {
    exists i | 0 <= i < |ranges| :: ranges[i].0 <= c <= ranges[i].1
  }

  predicate Matches(a: Atom, c: int) {
    match a
    case Char(d) => c == d
    case AnyChar => true
    case Class(negated, ranges) => InRanges(ranges, c) != negated
  }

  /** The operators of `Eval`. */
  datatype Re =
    | Leaf(a: Atom)
    | Cat(e1: Re, e2: Re)
    | Alt(e1: Re, e2: Re)
    | Opt(e: Re)
    | Star(e: Re)
    | Plus(e: Re)

  /** `w` is in the language of `e`. */
  ghost predicate In(e: Re, w: seq<int>)
    decreases e, 0
  {
    match e
    case Leaf(a) => |w| == 1 && Matches(a, w[0])
    case Cat(a, b) => exists i | 0 <= i <= |w| :: In(a, w[..i]) && In(b, w[i..])
    case Alt(a, b) => In(a, w) || In(b, w)
    case Opt(a) => w == [] || In(a, w)
    case Star(a) => exists n: nat :: Power(a, n, w)
    case Plus(a) => exists n: nat :: n > 0 && Power(a, n, w)
  }

  /** `w` is a concatenation of exactly `n` words of `e`. */
  ghost predicate Power(e: Re, n: nat, w: seq<int>)
    decreases e, n
  {
    if n == 0 then w == []
    else exists i | 0 <= i <= |w| :: In(e, w[..i]) && Power(e, n - 1, w[i..])
  }

  /** Syntactic nullability. */
  predicate Nullable(e: Re) {
    match e
    case Leaf(_) => false
    case Cat(a, b) => Nullable(a) && Nullable(b)
    case Alt(a, b) => Nullable(a) || Nullable(b)
    case Opt(_) => true
    case Star(_) => true
    case Plus(a) => Nullable(a)
  }

  /** No nullable body under `*` or `+`. */
  predicate Safe(e: Re) {
    match e
    case Leaf(_) => true
    case Cat(a, b) => Safe(a) && Safe(b)
    case Alt(a, b) => Safe(a) && Safe(b)
    case Opt(a) => Safe(a)
    case Star(a) => Safe(a) && !Nullable(a)
    case Plus(a) => Safe(a) && !Nullable(a)
  }

  lemma SafePair(a: Re, b: Re)
    ensures Safe(Cat(a, b)) <==> Safe(a) && Safe(b)
    ensures Safe(Alt(a, b)) <==> Safe(a) && Safe(b)
  {
  }

  lemma SafeOne(a: Re)
    ensures Safe(Opt(a)) <==> Safe(a)
    ensures Safe(Star(a)) <==> Safe(a) && !Nullable(a)
    ensures Safe(Plus(a)) <==> Safe(a) && !Nullable(a)
  {
  }

  /** Nullability decides membership of the empty word. */
  lemma {:induction false} NullableCorrect(e: Re)
    ensures Nullable(e) <==> In(e, [])
    decreases e
  {
    var w: seq<int> := [];
    match e
    case Leaf(_) =>
    case Cat(a, b) =>
      NullableCorrect(a);
      NullableCorrect(b);
      assert w[..0] == w && w[0..] == w;
    case Alt(a, b) =>
      NullableCorrect(a);
      NullableCorrect(b);
    case Opt(_) =>
    case Star(a) =>
      assert Power(a, 0, w);
    case Plus(a) =>
      NullableCorrect(a);
      assert w[..0] == w && w[0..] == w;
      if Nullable(a) {
        assert Power(a, 0, w[0..]);
        assert Power(a, 1, w);
      }
  }

  /** Whether `e` has the word of the one character c. */
  predicate HasCharacter(e: Re, c: int) {
    match e
    case Leaf(a) => Matches(a, c)
    case Cat(a, b) => (HasCharacter(a, c) && Nullable(b)) || (Nullable(a) && HasCharacter(b, c))
    case Alt(a, b) => HasCharacter(a, c) || HasCharacter(b, c)
    case Opt(a) => HasCharacter(a, c)
    case Star(a) => HasCharacter(a, c)
    case Plus(a) => HasCharacter(a, c)
  }

  lemma {:induction false} CharacterCorrect(e: Re, c: int)
    ensures HasCharacter(e, c) <==> In(e, [c])
    decreases e
  {
    hide Power, Nullable;
    match e
    case Leaf(_) =>
    case Cat(a, b) =>
      CharacterCorrect(a, c);
      CharacterCorrect(b, c);
      CharacterCat(a, b, c);
    case Alt(a, b) =>
      CharacterCorrect(a, c);
      CharacterCorrect(b, c);
    case Opt(a) =>
      CharacterCorrect(a, c);
    case Star(a) =>
      CharacterCorrect(a, c);
      CharacterRepeated(a, c);
    case Plus(a) =>
      CharacterCorrect(a, c);
      CharacterRepeated(a, c);
  }

  lemma CharacterCat(a: Re, b: Re, c: int)
    requires (HasCharacter(a, c) <==> In(a, [c])) && (HasCharacter(b, c) <==> In(b, [c]))
    ensures HasCharacter(Cat(a, b), c) <==> In(Cat(a, b), [c])
  {
    var w := [c];
    NullableCorrect(a);
    NullableCorrect(b);
    hide Power, Nullable;
    assert w[..0] == [] && w[0..] == w && w[..1] == w && w[1..] == [];
    if In(Cat(a, b), w) {
      var i :| 0 <= i <= |w| && In(a, w[..i]) && In(b, w[i..]);
      assert i == 0 || i == 1;
    }
  }

  /** One character in any number of copies is in one of them. */
  lemma CharacterRepeated(a: Re, c: int)
    ensures In(Star(a), [c]) <==> In(a, [c])
    ensures In(Plus(a), [c]) <==> In(a, [c])
  {
    forall n: nat | Power(a, n, [c]) ensures In(a, [c]) {
      CharacterPower(a, n, c);
    }
    if In(a, [c]) {
      hide Power;
      assert [c][..1] == [c] && [c][1..] == [];
      PowerZero(a, []);
      PowerStep(a, 0, [c], 1);
    }
  }

  lemma {:induction false} CharacterPower(a: Re, n: nat, c: int)
    requires Power(a, n, [c])
    ensures In(a, [c])
  {
    hide Power, In;
    PowerZero(a, [c]);
    var i := PowerElim(a, n, [c]);
    if i == 0 {
      assert [c][0..] == [c];
      CharacterPower(a, n - 1, c);
    } else {
      assert [c][..1] == [c];
    }
  }

  /** A word of `e` followed by `n` more is a word of `n + 1` copies. */
  lemma PowerStep(e: Re, n: nat, w: seq<int>, i: nat)
    requires i <= |w| && In(e, w[..i]) && Power(e, n, w[i..])
    ensures Power(e, n + 1, w)
  {
  }

  lemma PowerElim(a: Re, n: nat, w: seq<int>) returns (i: nat)
    requires n > 0 && Power(a, n, w)
    ensures i <= |w| && In(a, w[..i]) && Power(a, n - 1, w[i..])
  {
    hide In;
    i :| 0 <= i <= |w| && In(a, w[..i]) && Power(a, n - 1, w[i..]);
  }

  lemma PowerZero(e: Re, w: seq<int>)
    ensures Power(e, 0, w) <==> w == []
  {
  }

  /** Membership in a concatenation, from a split point. */
  lemma CatIntro(a: Re, b: Re, w: seq<int>, i: nat)
    requires i <= |w| && In(a, w[..i]) && In(b, w[i..])
    ensures In(Cat(a, b), w)
  {
  }

  lemma CatElim(a: Re, b: Re, w: seq<int>) returns (i: nat)
    requires In(Cat(a, b), w)
    ensures i <= |w| && In(a, w[..i]) && In(b, w[i..])
  {
    i :| 0 <= i <= |w| && In(a, w[..i]) && In(b, w[i..]);
  }

  /** Cutting a word at i and the rest at j is cutting it at i + j, and the first part again at i. */
  lemma Cuts(w: seq<int>, i: nat, j: nat)
    requires i + j <= |w|
    ensures w[..i + j][..i] == w[..i] && w[..i + j][i..] == w[i..][..j] && w[i + j..] == w[i..][j..]
  {
  }
}
