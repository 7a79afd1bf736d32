/**
 * The string-to-seed fold shared by both copies of `createSeedFromHash`
 * (script.js and api.js). The fold runs over the UTF-16 code units of the
 * string, starting from 0:
 *
 *   hash = ((hash << 5) - hash) + char;   hash = hash & hash;
 *
 * JavaScript's `<<` and `&` truncate their operands to 32-bit signed integers
 * (ECMAScript ToInt32). So each step is hash := ToInt32(31 * hash + char).
 */
module Hashing {

  /** A UTF-16 code unit, the value `charCodeAt` returns. */
  type CodeUnit = c: int | 0 <= c < 0x1_0000

  /** A JavaScript string, as the sequence of its UTF-16 code units. */
  type JsString = seq<CodeUnit>

  const TwoTo31: int := 0x8000_0000
  const TwoTo32: int := 0x1_0000_0000

  predicate IsInt32(x: int)
  {
    -TwoTo31 <= x < TwoTo31
  }

  /** ECMAScript ToInt32 on an integral number: the unique value in
      [-2^31, 2^31) congruent to `x` modulo 2^32. */
  function ToInt32(x: int): (r: int)
    ensures IsInt32(r)
    ensures (x - r) % TwoTo32 == 0
  {
    var r := (x + TwoTo31) % TwoTo32 - TwoTo31;
    assert x - r == TwoTo32 * ((x + TwoTo31) / TwoTo32);
    r
  }

  /** Congruent numbers truncate to the same 32-bit integer. */
  lemma ToInt32Congruent(x: int, y: int, q: int)
    requires x == y + TwoTo32 * q
    ensures ToInt32(x) == ToInt32(y)
  {
    assert x + TwoTo31 == TwoTo32 * q + (y + TwoTo31);
  }

  /** `x << 5` in JavaScript: the operand is truncated to 32 bits, shifted,
      and the result truncated again. */
  function ShiftLeft5(x: int): (r: int)
    ensures IsInt32(r)
  {
    ToInt32(ToInt32(x) * 32)
  }

  /** `x & x` in JavaScript: both operands are truncated to 32 bits, and a
      number and-ed with itself is that number. */
  function AndSelf(x: int): (r: int)
    ensures IsInt32(r)
  {
    ToInt32(x)
  }

  /** One step of the fold: ToInt32(31 * hash + code). */
  function HashStep(hash: int, code: CodeUnit): (next: int)
    ensures IsInt32(next)
    ensures (next - (31 * hash + code)) % TwoTo32 == 0
  {
    ToInt32(31 * hash + code)
  }

  /** The loop body as the source writes it is the step ToInt32(31 * hash + code). */
  lemma LoopBodyIsHashStep(hash: int, code: CodeUnit)
    ensures AndSelf((ShiftLeft5(hash) - hash) + code) == HashStep(hash, code)
  {
    var t := ToInt32(hash);
    var shifted := ShiftLeft5(hash);
    var q1 := (t * 32 - shifted) / TwoTo32;
    var q2 := (hash - t) / TwoTo32;
    assert t * 32 - shifted == TwoTo32 * q1;
    assert hash - t == TwoTo32 * q2;
    assert (shifted - hash + code) - (31 * hash + code) == TwoTo32 * (-q1 - 32 * q2);
    ToInt32Congruent((shifted - hash) + code, 31 * hash + code, -q1 - 32 * q2);
  }

  /** The fold over the whole string. */
  function Fold(s: JsString): (hash: int)
    ensures IsInt32(hash)
  {
    if s == [] then 0 else HashStep(Fold(s[..|s| - 1]), s[|s| - 1])
  }

  /** Folding one more code unit of `s` is one more step. */
  lemma FoldSnoc(s: JsString, k: nat)
    requires k < |s|
    ensures Fold(s[..k + 1]) == HashStep(Fold(s[..k]), s[k])
  {
    assert s[..k + 1][..k] == s[..k];
  }

  /** A step whose value is known up to a multiple of 2^32. */
  lemma HashStepIs(hash: int, code: CodeUnit, next: int, q: int)
    requires IsInt32(next) && 31 * hash + code == next + TwoTo32 * q
    ensures HashStep(hash, code) == next
  {
    ToInt32Congruent(31 * hash + code, next, q);
    assert ToInt32(next) == next;
  }

  /** The polynomial hash without any truncation: the sum of
      s[i] * 31^(|s| - 1 - i). */
  function Polynomial(s: JsString): int
  {
    if s == [] then 0 else Polynomial(s[..|s| - 1]) * 31 + s[|s| - 1]
  }

  /** Truncating after every step gives the same 32-bit value as truncating
      the exact polynomial once. */
  lemma {:induction false} FoldIsTruncatedPolynomial(s: JsString)
    ensures Fold(s) == ToInt32(Polynomial(s))
  {
    if s != [] {
      var init, last := s[..|s| - 1], s[|s| - 1];
      FoldIsTruncatedPolynomial(init);
      ExtendCongruent(Polynomial(init), Fold(init), last);
    }
  }

  /** Congruent accumulators stay congruent after one more step. */
  lemma ExtendCongruent(p: int, h: int, code: CodeUnit)
    requires (p - h) % TwoTo32 == 0
    ensures ToInt32(p * 31 + code) == ToInt32(31 * h + code)
  {
    var q := (p - h) / TwoTo32;
    assert p == h + TwoTo32 * q;
    assert p * 31 == h * 31 + TwoTo32 * (31 * q);
    ToInt32Congruent(p * 31 + code, 31 * h + code, 31 * q);
  }

  /** `Math.abs` */
  function Abs(x: int): (r: nat)
    ensures r == x || r == -x
  {
    if x < 0 then -x else x
  }

  /** The absolute value of a 32-bit integer lies in [0, 2^31]. */
  lemma AbsOfInt32(x: int)
    requires IsInt32(x)
    ensures Abs(x) <= TwoTo31
    ensures Abs(x) == 0 <==> x == 0
  {
  }

  /**
   * The `for` loop of `createSeedFromHash`, which both copies share:
   * `hash = ((hash << 5) - hash) + char; hash = hash & hash;` over every
   * code unit.
   */
  method FoldCodeUnits(s: JsString) returns (hash: int)
    ensures hash == Fold(s)
    ensures hash == ToInt32(Polynomial(s))
  {
    hash := 0;
    for i := 0 to |s|
      invariant hash == Fold(s[..i])
    {
      var code := s[i];
      LoopBodyIsHashStep(hash, code);
      hash := ShiftLeft5(hash) - hash + code;
      hash := AndSelf(hash);
      assert s[..i + 1][..i] == s[..i];
    }
    assert s[..|s|] == s;
    FoldIsTruncatedPolynomial(s);
  }

  /** The number a string of decimal digits spells, read left to right. */
  function DigitsValue(s: JsString): int
  {
    if s == [] then 0 else DigitsValue(s[..|s| - 1]) * 10 + (s[|s| - 1] - '0' as int)
  }

  /** `Date.now().toString()`: the decimal digits of `n`, as code units. */
  function DecimalString(n: nat): (s: JsString)
    ensures s != []
    ensures forall i :: 0 <= i < |s| ==> '0' as int <= s[i] <= '9' as int
    ensures n > 0 ==> s[0] != '0' as int
  {
    if n < 10 then [('0' as int + n) as CodeUnit]
    else DecimalString(n / 10) + [('0' as int + n % 10) as CodeUnit]
  }

  /** The clock's text spells the clock reading. */
  lemma {:induction false} DecimalStringValue(n: nat)
    ensures DigitsValue(DecimalString(n)) == n
  {
    if n >= 10 {
      DecimalStringValue(n / 10);
      var s := DecimalString(n);
      assert s[..|s| - 1] == DecimalString(n / 10);
    }
  }
}
