/** The 64-bit identifier of a string: FNV-1a over narrow or wide characters. */
module StringId {

  const BASIS: nat := 0xCBF29CE484222325
  const PRIME: nat := 0x100000001B3

  type Word = x: nat | x < 0x1_0000_0000_0000_0000

  type Narrow = c: nat | c < 0x100

  type Wide = c: nat | c < 0x1_0000

  // Bitwise exclusive or.
  function Xor(a: nat, b: nat): nat
    decreases a + b
  {
    if a == 0 && b == 0 then 0 else 2 * Xor(a / 2, b / 2) + (a + b) % 2
  }

  // Multiplication wraps around.
  function Times(x: Word): Word {
    (PRIME * x) % 0x1_0000_0000_0000_0000
  }

  function Mix(base: Word, code: Word): Word {
    XorIsWord(base, code);
    Times(Xor(base, code))
  }

  // A char is signed: it is widened with copies of its highest bit.
  function NarrowCode(c: Narrow): Word {
    if c < 0x80 then c else c + 0x1_0000_0000_0000_0000 - 0x100
  }

  // A wide character is not.
  function WideCode(c: Wide): Word {
    c
  }

  // Every code of a string is mixed in, from left to right.
  function Fold(base: Word, s: seq<Word>): Word
    decreases |s|
  {
    if s == [] then base else Fold(Mix(base, s[0]), s[1..])
  }

  function NarrowCodes(s: seq<Narrow>): seq<Word> {
    seq(|s|, i requires 0 <= i < |s| => NarrowCode(s[i]))
  }

  function WideCodes(s: seq<Wide>): seq<Word> {
    seq(|s|, i requires 0 <= i < |s| => WideCode(s[i]))
  }

  function NarrowId(s: seq<Narrow>): Word {
    Fold(BASIS, NarrowCodes(s))
  }

  function WideId(s: seq<Wide>): Word {
    Fold(BASIS, WideCodes(s))
  }

  // ---------------------------------------------------------------- one step

  function Pow2(n: nat): nat {
    if n == 0 then 1 else 2 * Pow2(n - 1)
  }

  lemma {:induction false} XorFits(a: nat, b: nat, bits: nat)
    requires a < Pow2(bits) && b < Pow2(bits)
    ensures Xor(a, b) < Pow2(bits)
  {
    if bits > 0 {
      XorFits(a / 2, b / 2, bits - 1);
    }
  }

  lemma {:induction false} Pow2Adds(m: nat, n: nat)
    ensures Pow2(m + n) == Pow2(m) * Pow2(n)
  {
    if m > 0 {
      Pow2Adds(m - 1, n);
    }
  }

  lemma WordHas64Bits()
    ensures Pow2(64) == 0x1_0000_0000_0000_0000
  {
    assert Pow2(8) == 0x100;
    Pow2Adds(8, 8);
    Pow2Adds(16, 16);
    Pow2Adds(32, 32);
  }

  lemma XorIsWord(a: Word, b: Word)
    ensures Xor(a, b) < 0x1_0000_0000_0000_0000
  {
    WordHas64Bits();
    XorFits(a, b, 64);
  }

  // Whether bit k of a number is set.
  predicate Bit(a: nat, k: nat)
    decreases k
  {
    if k == 0 then a % 2 == 1 else Bit(a / 2, k - 1)
  }

  lemma {:induction false} XorIsBitwise(a: nat, b: nat, k: nat)
    ensures Bit(Xor(a, b), k) <==> Bit(a, k) != Bit(b, k)
    decreases k
  {
    var x, half := Xor(a, b), Xor(a / 2, b / 2);
    assert x == 2 * half + (a + b) % 2;
    assert x / 2 == half && x % 2 == (a + b) % 2;
    if k > 0 {
      XorIsBitwise(a / 2, b / 2, k - 1);
    }
  }

  lemma {:induction false} XorCommutes(a: nat, b: nat)
    ensures Xor(a, b) == Xor(b, a)
    decreases a + b
  {
    if a + b > 0 {
      XorCommutes(a / 2, b / 2);
    }
  }

  lemma {:induction false} XorCancels(a: nat, b: nat, c: nat)
    ensures Xor(a, c) == Xor(b, c) <==> a == b
    decreases a + b + c
  {
    if a + b + c > 0 {
      XorCancels(a / 2, b / 2, c / 2);
    }
  }

  // The inverse of PRIME modulo 2^64.
  const INVERSE: nat := 0xCE965057AFF6957B

  lemma OnlyZeroVanishes(d: int, turns: int)
    requires -0x1_0000_0000_0000_0000 < d < 0x1_0000_0000_0000_0000
    requires PRIME * d == turns * 0x1_0000_0000_0000_0000
    ensures d == 0
  {
    var k := PRIME * INVERSE / 0x1_0000_0000_0000_0000;
    assert INVERSE * PRIME == 1 + k * 0x1_0000_0000_0000_0000;
    var n := INVERSE * turns - k * d;
    assert d == n * 0x1_0000_0000_0000_0000;
  }

  lemma TimesIsInjective(x: Word, y: Word)
    ensures Times(x) == Times(y) <==> x == y
  {
    if Times(x) == Times(y) {
      var t, u := PRIME * x / 0x1_0000_0000_0000_0000, PRIME * y / 0x1_0000_0000_0000_0000;
      OnlyZeroVanishes(x - y, t - u);
    }
  }

  // Each step is a bijection of the hash and, for a given hash, of the character.
  lemma MixCancels(a: Word, b: Word, c: Word)
    ensures Mix(a, c) == Mix(b, c) <==> a == b
    ensures Mix(c, a) == Mix(c, b) <==> a == b
  {
    XorCancels(a, b, c);
    XorCommutes(c, a);
    XorCommutes(c, b);
    XorIsWord(a, c);
    XorIsWord(b, c);
    TimesIsInjective(Xor(a, c), Xor(b, c));
  }

  // ---------------------------------------------------------------- whole strings

  lemma {:induction false} FoldAppends(base: Word, a: seq<Word>, b: seq<Word>)
    ensures Fold(base, a + b) == Fold(Fold(base, a), b)
    decreases |a|
  {
    if a == [] {
      assert a + b == b;
    } else {
      assert (a + b)[1..] == a[1..] + b;
      FoldAppends(Mix(base, a[0]), a[1..], b);
    }
  }

  lemma {:induction false} FoldCancels(a: Word, b: Word, s: seq<Word>)
    ensures Fold(a, s) == Fold(b, s) <==> a == b
    decreases |s|
  {
    if s != [] {
      MixCancels(a, b, s[0]);
      FoldCancels(Mix(a, s[0]), Mix(b, s[0]), s[1..]);
    }
  }

  // A common ending neither makes nor hides a collision.
  lemma SuffixCancels(base: Word, a: seq<Word>, b: seq<Word>, s: seq<Word>)
    ensures Fold(base, a + s) == Fold(base, b + s) <==> Fold(base, a) == Fold(base, b)
  {
    FoldAppends(base, a, s);
    FoldAppends(base, b, s);
    FoldCancels(Fold(base, a), Fold(base, b), s);
  }

  // Strings that differ in one place have different identifiers.
  lemma OneChangeShows(base: Word, s: seq<Word>, i: nat, c: Word)
    requires i < |s|
    ensures Fold(base, s) == Fold(base, s[i := c]) <==> s[i] == c
  {
    var head, tail := s[..i], s[i + 1..];
    assert s == head + [s[i]] + tail && s[i := c] == head + [c] + tail;
    SuffixCancels(base, head + [s[i]], head + [c], tail);
    FoldAppends(base, head, [s[i]]);
    FoldAppends(base, head, [c]);
    MixCancels(s[i], c, Fold(base, head));
  }

  lemma NarrowSuffixCancels(a: seq<Narrow>, b: seq<Narrow>, s: seq<Narrow>)
    ensures NarrowId(a + s) == NarrowId(b + s) <==> NarrowId(a) == NarrowId(b)
  {
    assert NarrowCodes(a + s) == NarrowCodes(a) + NarrowCodes(s);
    assert NarrowCodes(b + s) == NarrowCodes(b) + NarrowCodes(s);
    SuffixCancels(BASIS, NarrowCodes(a), NarrowCodes(b), NarrowCodes(s));
  }

  lemma WideSuffixCancels(a: seq<Wide>, b: seq<Wide>, s: seq<Wide>)
    ensures WideId(a + s) == WideId(b + s) <==> WideId(a) == WideId(b)
  {
    assert WideCodes(a + s) == WideCodes(a) + WideCodes(s);
    assert WideCodes(b + s) == WideCodes(b) + WideCodes(s);
    SuffixCancels(BASIS, WideCodes(a), WideCodes(b), WideCodes(s));
  }

  // ---------------------------------------------------------------- narrow against wide

  ghost predicate Ascii(s: seq<Narrow>) {
    forall i :: 0 <= i < |s| ==> s[i] < 0x80
  }

  // The same text in wide characters.
  function Widened(s: seq<Narrow>): (w: seq<Wide>) {
    seq(|s|, i requires 0 <= i < |s| => s[i])
  }

  lemma AsciiAgrees(s: seq<Narrow>)
    requires Ascii(s)
    ensures NarrowId(s) == WideId(Widened(s))
  {
    assert NarrowCodes(s) == WideCodes(Widened(s));
  }

  // With one character that may be outside ASCII, the two agree exactly when it is not.
  lemma OneForeignCharacterShows(s: seq<Narrow>, i: nat)
    requires i < |s| && Ascii(s[..i]) && Ascii(s[i + 1..])
    ensures NarrowId(s) == WideId(Widened(s)) <==> s[i] < 0x80
  {
    var w := WideCodes(Widened(s));
    assert forall k :: i < k < |s| ==> s[k] == s[i + 1..][k - i - 1];
    assert NarrowCodes(s) == w[i := NarrowCode(s[i])];
    OneChangeShows(BASIS, w, i, NarrowCode(s[i]));
  }

  // ---------------------------------------------------------------- a published value

  lemma XorOfParts(a: nat, p: nat, b: nat, q: nat)
    requires p < 2 && q < 2
    ensures Xor(2 * a + p, 2 * b + q) == 2 * Xor(a, b) + (p + q) % 2
  {
    var x, y := 2 * a + p, 2 * b + q;
    assert x / 2 == a && y / 2 == b;
    assert x + y == 2 * (a + b) + (p + q);
    assert (x + y) % 2 == (p + q) % 2;
    assert x == 0 && y == 0 ==> Xor(a, b) == 0;
  }

  lemma {:induction false} XorZero(a: nat)
    ensures Xor(a, 0) == a
    decreases a
  {
    if a > 0 {
      XorZero(a / 2);
    }
  }

  // Two binary digits at a time.
  lemma XorOfPairs(a: nat, p: nat, s: nat, b: nat, q: nat, t: nat)
    requires p < 2 && q < 2 && s < 2 && t < 2
    ensures Xor(4 * a + 2 * p + s, 4 * b + 2 * q + t) == 4 * Xor(a, b) + 2 * ((p + q) % 2) + (s + t) % 2
  {
    var x, y := 2 * a + p, 2 * b + q;
    XorOfParts(a, p, b, q);
    XorOfParts(x, s, y, t);
    assert 4 * a + 2 * p + s == 2 * x + s && 4 * b + 2 * q + t == 2 * y + t;
  }

  lemma XorGoesOn(a: nat, p: nat, s: nat, b: nat, q: nat, t: nat, x: nat, y: nat, r: nat)
    requires p < 2 && q < 2 && s < 2 && t < 2 && x == 4 * a + 2 * p + s && y == 4 * b + 2 * q + t && r == Xor(a, b)
    ensures Xor(x, y) == 4 * r + 2 * ((p + q) % 2) + (s + t) % 2
  {
    XorOfPairs(a, p, s, b, q, t);
  }

  // The character "a", 01 10 00 01, meets the low byte of the basis, 00 10 01 01.
  lemma FirstXor(base: Word, code: Word)
    requires base == BASIS && code == 0x61
    ensures Xor(base, code) == 0xCBF29CE484222344
  {
    var h := base / 0x100;
    var x1, x2, x3 := 4 * h, 16 * h + 2, 64 * h + 9;
    var c1, c2, c3 := 1, 6, 24;
    XorZero(h);
    XorGoesOn(h, 0, 0, 0, 0, 1, x1, c1, h);
    XorGoesOn(x1, 1, 0, c1, 1, 0, x2, c2, 4 * h + 1);
    XorGoesOn(x2, 0, 1, c2, 0, 0, x3, c3, 16 * h + 4);
    XorGoesOn(x3, 0, 1, c3, 0, 1, base, code, 64 * h + 17);
  }

  lemma FirstTimes()
    ensures Times(0xCBF29CE484222344) == 0xAF63DC4C8601EC8C
  {
  }

  // The 64-bit FNV-1a hash of "a", as the authors of the function give it.
  lemma KnownHash()
    ensures NarrowId([0x61]) == 0xAF63DC4C8601EC8C
  {
    var codes := NarrowCodes([0x61]);
    assert codes == [0x61] && codes[1..] == [];
    FirstXor(BASIS, codes[0]);
    FirstTimes();
  }

  // ---------------------------------------------------------------- code

  // A string ends at its terminator.
  ghost predicate Terminated(memory: seq<nat>, text: seq<nat>) {
    |text| < |memory| && text == memory[..|text|] && memory[|text|] == 0 && 0 !in text
  }

  method ToStringId64A(str: seq<Narrow>, ghost text: seq<Narrow>) returns (base: Word)
    requires Terminated(str, text)
    ensures base == NarrowId(text)
  {
    base := BASIS;
    var i := 0;
    if str[i] != 0 {
      var more := true;
      while more
        invariant i <= |text| && more == (str[i] != 0)
        invariant Fold(base, NarrowCodes(text[i..])) == NarrowId(text)
        decreases |text| - i
      {
        assert i < |text| && text[i] == str[i];
        assert NarrowCodes(text[i..])[1..] == NarrowCodes(text[i + 1..]);
        base := Mix(base, NarrowCode(str[i]));
        i := i + 1;
        more := str[i] != 0;
      }
      assert i == |text|;
    }
  }

  method ToStringId64W(str: seq<Wide>, ghost text: seq<Wide>) returns (base: Word)
    requires Terminated(str, text)
    ensures base == WideId(text)
  {
    base := BASIS;
    var i := 0;
    if str[i] != 0 {
      var more := true;
      while more
        invariant i <= |text| && more == (str[i] != 0)
        invariant Fold(base, WideCodes(text[i..])) == WideId(text)
        decreases |text| - i
      {
        assert i < |text| && text[i] == str[i];
        assert WideCodes(text[i..])[1..] == WideCodes(text[i + 1..]);
        base := Mix(base, WideCode(str[i]));
        i := i + 1;
        more := str[i] != 0;
      }
      assert i == |text|;
    }
  }
}
