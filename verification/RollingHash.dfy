/** The fallback hash of the web client: a 32-bit shift-and-subtract loop over the UTF-16 code
    units of a string, printed as hexadecimal text. */
module RollingHash {
  import opened HexText

  const TWO_31: int := 0x8000_0000
  const TWO_32: int := 0x1_0000_0000
  const TWO_53: int := 0x20_0000_0000_0000
  const SUFFIX: string := "f8a9d1"

  type CodeUnit = c: int | 0 <= c < 0x1_0000

  type Int32 = i: int | -0x8000_0000 <= i < 0x8000_0000

  /** The ToInt32 operation of section 7.1.6 of ECMA-262. */
  function ToInt32(x: int): Int32 {
    var m := x % TWO_32;
    if m >= TWO_31 then m - TWO_32 else m
  }

  /** `hash << 5`. */
  function ShiftLeft5(hash: Int32): Int32 {
    ToInt32(hash * 32)
  }

  function Abs(x: int): nat {
    if x < 0 then -x else x
  }

  // ----- The polynomial -----

  /** The base-31 polynomial of the code units, by Horner's rule. */
  function Poly(s: seq<CodeUnit>): nat {
    if s == [] then 0 else 31 * Poly(s[..|s| - 1]) + s[|s| - 1]
  }

  function Pow31(k: nat): nat {
    if k == 0 then 1 else 31 * Pow31(k - 1)
  }

  /** The same polynomial as a sum of weighted code units. */
  function WeightedSum(s: seq<CodeUnit>): nat {
    if s == [] then 0 else s[0] * Pow31(|s| - 1) + WeightedSum(s[1..])
  }

  lemma {:induction false} PolyAppend(a: seq<CodeUnit>, b: seq<CodeUnit>)
    ensures Poly(a + b) == Poly(a) * Pow31(|b|) + Poly(b)
  {
    if b == [] {
      assert a + b == a;
    } else {
      var n := |b| - 1;
      assert (a + b)[..|a| + n] == a + b[..n];
      PolyAppend(a, b[..n]);
      HornerStep(Poly(a), Pow31(n), Poly(b[..n]), b[n]);
    }
  }

  lemma HornerStep(p: int, w: int, q: int, c: int)
    ensures 31 * (p * w + q) + c == p * (31 * w) + (31 * q + c)
  {
  }

  lemma {:induction false} PolyIsWeightedSum(s: seq<CodeUnit>)
    ensures Poly(s) == WeightedSum(s)
  {
    if s != [] {
      assert s == [s[0]] + s[1..];
      PolyAppend([s[0]], s[1..]);
      assert Poly([s[0]]) == s[0] by { assert [s[0]][..0] == []; }
      PolyIsWeightedSum(s[1..]);
    }
  }

  // ----- Wrapping -----

  ghost predicate Congruent(a: int, b: int) {
    (a - b) % TWO_32 == 0
  }

  lemma MultipleIsCongruent(a: int, b: int, k: int)
    requires a - b == k * TWO_32
    ensures Congruent(a, b)
  {
  }

  lemma CongruentMultiple(a: int, b: int) returns (k: int)
    requires Congruent(a, b)
    ensures a - b == k * TWO_32
  {
    k := (a - b) / TWO_32;
  }

  lemma ToInt32Congruent(x: int)
    ensures Congruent(ToInt32(x), x)
  {
    var m := x % TWO_32;
    assert x == (x / TWO_32) * TWO_32 + m;
    MultipleIsCongruent(ToInt32(x), x, if m >= TWO_31 then -1 - x / TWO_32 else -(x / TWO_32));
  }

  /** Two numbers wrap to the same value exactly when they are congruent. */
  lemma ToInt32Same(a: int, b: int)
    ensures ToInt32(a) == ToInt32(b) <==> Congruent(a, b)
  {
    ToInt32Congruent(a);
    ToInt32Congruent(b);
    var i := CongruentMultiple(ToInt32(a), a);
    var j := CongruentMultiple(ToInt32(b), b);
    if ToInt32(a) == ToInt32(b) {
      MultipleIsCongruent(a, b, j - i);
    }
    if Congruent(a, b) {
      var k := CongruentMultiple(a, b);
      assert ToInt32(a) - ToInt32(b) == (i + k - j) * TWO_32;
      assert i + k - j == 0;
    }
  }

  lemma CongruentCombination(a: int, a': int, b: int, b': int, f: int)
    requires Congruent(a, a') && Congruent(b, b')
    ensures Congruent(a * f + b, a' * f + b')
  {
    var i := CongruentMultiple(a, a');
    var j := CongruentMultiple(b, b');
    assert (a - a') * f == i * f * TWO_32;
    assert (a * f + b) - (a' * f + b') == (i * f + j) * TWO_32;
    MultipleIsCongruent(a * f + b, a' * f + b', i * f + j);
  }

  // ----- The loop -----

  /** Far inside the range in which a double is exact. */
  predicate IsExact(x: int) {
    -TWO_53 < x < TWO_53
  }

  /** The two numbers that a round computes before it wraps. */
  lemma StepIsExact(hash: Int32, c: CodeUnit)
    ensures IsExact(ShiftLeft5(hash) - hash) && IsExact(ShiftLeft5(hash) - hash + c)
  {
  }

  /** One round of the loop is one step of Horner's rule. */
  lemma StepIsHorner(hash: Int32, p: int, c: CodeUnit)
    requires Congruent(hash, p)
    ensures ToInt32(ShiftLeft5(hash) - hash + c) == ToInt32(31 * p + c)
  {
    ToInt32Congruent(hash * 32);
    var i := CongruentMultiple(ShiftLeft5(hash), hash * 32);
    var j := CongruentMultiple(hash, p);
    MultipleIsCongruent(ShiftLeft5(hash) - hash + c, 31 * p + c, i + 31 * j);
    ToInt32Same(ShiftLeft5(hash) - hash + c, 31 * p + c);
  }

  /** The fallback branch of `sha256`. */
  method Fallback(message: seq<CodeUnit>) returns (text: string)
    ensures text == FallbackText(message) && IsFallbackText(message, text)
    ensures forall k :: 0 <= k < |message| ==>
              var hash := HashOf(message[..k]);
              IsExact(ShiftLeft5(hash) - hash) && IsExact(ShiftLeft5(hash) - hash + message[k])
  {
    var hash: Int32 := 0;
    for i := 0 to |message|
      invariant hash == HashOf(message[..i])
      invariant forall k :: 0 <= k < i ==>
                  var hash := HashOf(message[..k]);
                  IsExact(ShiftLeft5(hash) - hash) && IsExact(ShiftLeft5(hash) - hash + message[k])
    {
      var unit := message[i];
      ToInt32Congruent(Poly(message[..i]));
      StepIsExact(hash, unit);
      StepIsHorner(hash, Poly(message[..i]), unit);
      assert message[..i + 1][..i] == message[..i];
      var sum := (ShiftLeft5(hash) - hash) + unit;
      hash := ToInt32(sum);
    }
    assert message[..|message|] == message;
    text := NumberText(Abs(hash), true) + SUFFIX;
    FallbackTextReads(message);
  }

  function HashOf(message: seq<CodeUnit>): Int32 {
    ToInt32(Poly(message))
  }

  /** The hash is the weighted sum of the code units, wrapped to a signed 32-bit number. */
  lemma HashIsWrappedSum(message: seq<CodeUnit>) returns (k: int)
    ensures -0x8000_0000 <= HashOf(message) < 0x8000_0000
    ensures HashOf(message) == WeightedSum(message) + k * 0x1_0000_0000
  {
    PolyIsWeightedSum(message);
    ToInt32Congruent(Poly(message));
    k := CongruentMultiple(HashOf(message), Poly(message));
  }

  /** The hash without its sign in lower-case hexadecimal digits, with no leading zeros, and six
      fixed digits behind. */
  ghost predicate IsFallbackText(message: seq<CodeUnit>, text: string) {
    var hash: int := HashOf(message);
    && 7 <= |text| <= 14 && text[|text| - 6..] == "f8a9d1" && (|text| > 7 ==> text[0] != '0')
    && (forall i :: 0 <= i < |text| ==> text[i] in Alphabet(true))
    && NumberOf(text[..|text| - 6]) == if hash < 0 then -hash else hash
  }

  function FallbackText(message: seq<CodeUnit>): string {
    NumberText(Abs(HashOf(message)), true) + SUFFIX
  }

  lemma WrapCombination(r: int, p: int, q: int, f: int)
    requires r == p * f + q
    ensures ToInt32(r) == ToInt32(ToInt32(p) * f + ToInt32(q))
  {
    ToInt32Congruent(p);
    ToInt32Congruent(q);
    CongruentCombination(ToInt32(p), p, ToInt32(q), q, f);
    ToInt32Same(ToInt32(p) * f + ToInt32(q), r);
  }

  /** The hash of a concatenation, from the hashes of its parts. */
  lemma HashConcatenates(a: seq<CodeUnit>, b: seq<CodeUnit>)
    ensures HashOf(a + b) == ToInt32(HashOf(a) * Pow31(|b|) + HashOf(b))
  {
    PolyAppend(a, b);
    WrapCombination(Poly(a + b), Poly(a), Poly(b), Pow31(|b|));
  }

  /** The text has 7 to 14 lower-case hexadecimal characters, also for the hash -2^31, whose
      absolute value is no 32-bit integer. */
  lemma FallbackTextShape(message: seq<CodeUnit>)
    ensures 7 <= |FallbackText(message)| <= 14
    ensures forall i :: 0 <= i < |FallbackText(message)| ==> IsLowerHex(FallbackText(message)[i])
  {
    var n := Abs(HashOf(message));
    NumberTextLength(n, true, 8);
    assert Pow16(8) == TWO_32 by {
      assert Pow16(2) == 256;
      assert Pow16(4) == 65536;
      assert Pow16(6) == 16777216;
    }
    NumberTextReadsBack(n, true);
    assert forall i :: 0 <= i < |SUFFIX| ==> IsLowerHex(SUFFIX[i]);
  }

  lemma FallbackTextReads(message: seq<CodeUnit>)
    ensures IsFallbackText(message, FallbackText(message))
  {
    var text, n := FallbackText(message), Abs(HashOf(message));
    FallbackTextShape(message);
    NumberTextReadsBack(n, true);
    NumberTextStart(n, true);
    assert text[..|text| - 6] == NumberText(n, true) && text[|text| - 6..] == "f8a9d1";
    forall i | 0 <= i < |text| ensures text[i] in Alphabet(true) {
      LowerHexInAlphabet(text[i]);
    }
  }

  lemma OppositeSums(p: int, q: int)
    ensures Congruent(p + q, 0) <==> ToInt32(p) + ToInt32(q) == 0 || ToInt32(p) == ToInt32(q) == -TWO_31
  {
    ToInt32Congruent(p);
    ToInt32Congruent(q);
    var i := CongruentMultiple(ToInt32(p), p);
    var j := CongruentMultiple(ToInt32(q), q);
    if Congruent(p + q, 0) {
      var k := CongruentMultiple(p + q, 0);
      assert ToInt32(p) + ToInt32(q) == (i + j + k) * TWO_32;
    } else if ToInt32(p) + ToInt32(q) == 0 {
      MultipleIsCongruent(p + q, 0, -(i + j));
    } else if ToInt32(p) == ToInt32(q) == -TWO_31 {
      MultipleIsCongruent(p + q, 0, -1 - (i + j));
    }
  }

  /** Which messages the fallback confuses: exactly those whose polynomials agree modulo 2^32
      up to sign, since the sign is dropped. */
  lemma FallbackCollisions(a: seq<CodeUnit>, b: seq<CodeUnit>)
    ensures FallbackText(a) == FallbackText(b)
       <==> Congruent(Poly(a), Poly(b)) || Congruent(Poly(a) + Poly(b), 0)
  {
    SameTextSameNumber(Abs(HashOf(a)), Abs(HashOf(b)));
    ToInt32Same(Poly(a), Poly(b));
    OppositeSums(Poly(a), Poly(b));
  }

  lemma SameTextSameNumber(m: nat, n: nat)
    ensures NumberText(m, true) + SUFFIX == NumberText(n, true) + SUFFIX <==> m == n
  {
    NumberTextReadsBack(m, true);
    NumberTextReadsBack(n, true);
    var s, t := NumberText(m, true), NumberText(n, true);
    if s + SUFFIX == t + SUFFIX {
      assert s == (s + SUFFIX)[..|s|] && t == (t + SUFFIX)[..|t|];
    }
  }
}
