/**
 * The generator has full period: from any start, the first 2^32 draws visit
 * every state in [0, 2^32) exactly once. This is the Hull-Dobell theorem
 * (Knuth, The Art of Computer Programming, vol. 2, section 3.2.1.2) for the
 * constants of `seededRandom`: the increment 1013904223 is odd and the
 * multiplier minus one, 1664524, is divisible by 4.
 *
 * Both copies of the mine-position loop rely on it to terminate: it
 * guarantees that every cell of the grid is drawn within 2^32 draws.
 *
 * Proof outline. Write a = Multiplier, c = Increment and G(d) = 1 + a + ... +
 * a^(d-1). Without reduction, d draws from t give t + G(d) * ((a - 1) * t + c).
 * The second factor is odd, so returning to t after d draws needs 2^32 to
 * divide G(d), and 2^k divides G(d) only when 2^k divides d.
 */
module FullPeriod {
  import opened Lcg

  /** The state after `n` draws from `t`, with no reduction modulo 2^32. */
  function Unreduced(t: int, n: nat): int
  {
    if n == 0 then t else Unreduced(t, n - 1) * Multiplier + Increment
  }

  /** G(n) = 1 + a + ... + a^(n-1), in Horner form. */
  function GeoSum(n: nat): int
  {
    if n == 0 then 0 else GeoSum(n - 1) * Multiplier + 1
  }

  /** a^n */
  function MultiplierPow(n: nat): int
  {
    if n == 0 then 1 else MultiplierPow(n - 1) * Multiplier
  }

  function Pow2(k: nat): (p: int)
    ensures p > 0
  {
    if k == 0 then 1 else 2 * Pow2(k - 1)
  }

  /** `x` is a multiple of 2^k. */
  predicate DivisibleByPow2(x: int, k: nat)
    decreases k
  {
    k == 0 || (x % 2 == 0 && DivisibleByPow2(x / 2, k - 1))
  }

  // ---------------------------------------------------------------------
  // Arithmetic modulo 2^32
  //
  // The one-line facts below are stated as lemmas of their own so that the
  // solver proves each one apart from the larger proofs that call them;
  // written as assertions inside those proofs they exhaust the resource limit.

  lemma MultiplierIsOdd(g: int)
    ensures g * Multiplier + 1 == 2 * (g * 832262) + (g + 1)
  {
  }

  lemma SuccessorParity(a: int, b: int)
    requires a % 2 == b % 2
    ensures (a + 1) % 2 == (b + 1) % 2
  {
  }

  lemma ParityOfSum(y: int, x: int)
    ensures (2 * y + x) % 2 == x % 2
  {
  }

  lemma AddMultipleOfModulus(x: int, q: int)
    ensures (Modulus * q + x) % Modulus == x % Modulus
  {
  }

  /** A step respects congruence modulo 2^32. */
  lemma StepCongruent(x: int, y: int)
    requires x % Modulus == y % Modulus
    ensures (x * Multiplier + Increment) % Modulus == (y * Multiplier + Increment) % Modulus
  {
    var r := x % Modulus;
    assert x * Multiplier + Increment == Modulus * ((x / Modulus) * Multiplier) + (r * Multiplier + Increment);
    assert y * Multiplier + Increment == Modulus * ((y / Modulus) * Multiplier) + (r * Multiplier + Increment);
    AddMultipleOfModulus(r * Multiplier + Increment, (x / Modulus) * Multiplier);
    AddMultipleOfModulus(r * Multiplier + Increment, (y / Modulus) * Multiplier);
  }

  /** Reducing after every step or only at the end gives the same state. */
  lemma {:induction false} ReduceAtEnd(t: int, n: nat)
    ensures Iter(t, n) % Modulus == Unreduced(t, n) % Modulus
  {
    if n > 0 {
      ReduceAtEnd(t, n - 1);
      StepCongruent(Iter(t, n - 1), Unreduced(t, n - 1));
    }
  }

  // ---------------------------------------------------------------------
  // The geometric sum G

  /** d unreduced draws move t by G(d) * ((a - 1) * t + c). */
  lemma {:induction false} Displacement(t: int, n: nat)
    ensures Unreduced(t, n) - t == GeoSum(n) * ((Multiplier - 1) * t + Increment)
  {
    if n > 0 {
      Displacement(t, n - 1);
      var q := (Multiplier - 1) * t + Increment;
      var g := GeoSum(n - 1);
      calc {
        Unreduced(t, n) - t;
        (t + g * q) * Multiplier + Increment - t;
        { assert (t + g * q) * Multiplier == t * Multiplier + (g * q) * Multiplier; }
        q + (g * q) * Multiplier;
        { assert (g * q) * Multiplier == (g * Multiplier) * q; }
        (g * Multiplier + 1) * q;
        GeoSum(n) * q;
      }
    }
  }

  lemma {:induction false} GeoSumParity(n: nat)
    ensures GeoSum(n) % 2 == n % 2
  {
    if n > 0 {
      GeoSumParity(n - 1);
      var g := GeoSum(n - 1);
      MultiplierIsOdd(g);
      ParityOfSum(g * 832262, g + 1);
      SuccessorParity(g, n - 1);
    }
  }

  lemma {:induction false} MultiplierPowMod4(n: nat)
    ensures MultiplierPow(n) % 4 == 1
  {
    if n > 0 {
      MultiplierPowMod4(n - 1);
      var p := MultiplierPow(n - 1);
      assert p == 4 * (p / 4) + 1;
      assert p * Multiplier == 4 * ((p / 4) * Multiplier) + Multiplier;
    }
  }

  lemma {:induction false} GeoSumSplit(e: nat, m: nat)
    ensures GeoSum(e + m) == MultiplierPow(m) * GeoSum(e) + GeoSum(m)
  {
    if m > 0 {
      GeoSumSplit(e, m - 1);
      var p, g := MultiplierPow(m - 1), GeoSum(e);
      assert (p * g) * Multiplier == (p * Multiplier) * g;
    }
  }

  // ---------------------------------------------------------------------
  // Powers of two

  lemma {:induction false} OddFactor(u: int, x: int, k: nat)
    requires u % 2 == 1
    requires DivisibleByPow2(u * x, k)
    ensures DivisibleByPow2(x, k)
    decreases k
  {
    if k > 0 {
      var v := u / 2;
      assert u == 2 * v + 1;
      assert u * x == 2 * (v * x) + x;
      ParityOfSum(v * x, x);
      var h := x / 2;
      assert x == 2 * h;
      assert u * x == 2 * (u * h);
      assert (u * x) / 2 == u * h;
      OddFactor(u, h, k - 1);
    }
  }

  /** G(2e) is twice an odd multiple of G(e), because a^e + 1 = 2 mod 4. */
  lemma GeoSumDouble(e: nat) returns (w: int)
    ensures w % 2 == 1
    ensures GeoSum(2 * e) == 2 * (w * GeoSum(e))
  {
    GeoSumSplit(e, e);
    assert e + e == 2 * e;
    MultiplierPowMod4(e);
    var p, g := MultiplierPow(e), GeoSum(e);
    var m := p / 4;
    assert p == 4 * m + 1;
    w := 2 * m + 1;
    ParityOfSum(m, 1);
    assert GeoSum(2 * e) == p * g + g;
    PlusOneTimes(p, g);
    TwiceTimes(w, g);
  }

  lemma PlusOneTimes(p: int, g: int)
    ensures p * g + g == (p + 1) * g
  {
  }

  lemma TwiceTimes(w: int, g: int)
    ensures (2 * w) * g == 2 * (w * g)
  {
  }

  /** 2^k divides G(n) only if 2^k divides n. */
  lemma {:induction false} GeoSumDivisible(n: nat, k: nat)
    requires DivisibleByPow2(GeoSum(n), k)
    ensures DivisibleByPow2(n, k)
  {
    if k > 0 {
      GeoSumParity(n);
      var e := n / 2;
      assert n == 2 * e;
      var w := GeoSumDouble(e);
      assert GeoSum(n) / 2 == w * GeoSum(e);
      OddFactor(w, GeoSum(e), k - 1);
      GeoSumDivisible(e, k - 1);
    }
  }

  lemma {:induction false} MultipleOfPow2(q: int, k: nat)
    ensures DivisibleByPow2(Pow2(k) * q, k)
  {
    if k > 0 {
      assert Pow2(k) * q == 2 * (Pow2(k - 1) * q);
      MultipleOfPow2(q, k - 1);
    }
  }

  lemma {:induction false} PositiveMultipleOfPow2(d: int, k: nat)
    requires d > 0 && DivisibleByPow2(d, k)
    ensures d >= Pow2(k)
  {
    if k > 0 {
      PositiveMultipleOfPow2(d / 2, k - 1);
    }
  }

  lemma Pow2Is32Bits()
    ensures Pow2(32) == Modulus
  {
    assert Pow2(8) == 0x100;
    assert Pow2(16) == 0x1_0000;
    assert Pow2(24) == 0x100_0000;
  }

  // ---------------------------------------------------------------------
  // Full period

  /** Returning to `t` after `d` draws makes 2^32 divide G(d) * ((a - 1) * t + c). */
  lemma ReturnDivides(t: int, d: nat)
    requires 0 <= t < Modulus
    requires Iter(t, d) == t
    ensures DivisibleByPow2(((Multiplier - 1) * t + Increment) * GeoSum(d), 32)
  {
    var u := Unreduced(t, d);
    ReduceAtEnd(t, d);
    assert u % Modulus == t;
    var q := (Multiplier - 1) * t + Increment;
    Displacement(t, d);
    assert u - t == GeoSum(d) * q;
    assert GeoSum(d) * q == q * GeoSum(d);
    assert u - t == Modulus * (u / Modulus);
    MultipleOfModulus(u / Modulus);
  }

  lemma MultipleOfModulus(q: int)
    ensures DivisibleByPow2(Modulus * q, 32)
  {
    Pow2Is32Bits();
    MultipleOfPow2(q, 32);
  }

  lemma OffsetOdd(t: int)
    ensures ((Multiplier - 1) * t + Increment) % 2 == 1
  {
    var half := 832262 * t + 506952111;
    assert (Multiplier - 1) * t + Increment == 2 * half + 1;
    ParityOfSum(half, 1);
  }

  /** From a state below 2^32, fewer than 2^32 draws never return to it. */
  lemma NoShortCycle(t: int, d: nat)
    requires 0 <= t < Modulus
    requires 0 < d < Modulus
    ensures Iter(t, d) != t
  {
    if Iter(t, d) == t {
      ReturnDivides(t, d);
      var q := (Multiplier - 1) * t + Increment;
      OffsetOdd(t);
      OddFactor(q, GeoSum(d), 32);
      GeoSumDivisible(d, 32);
      PositiveMultipleOfPow2(d, 32);
      Pow2Is32Bits();
      assert false;
    }
  }

  /** Draws 1 to 2^32 from any initial state are pairwise distinct. */
  lemma DrawsDistinct(s: int, i: nat, j: nat)
    requires 1 <= i < j <= Modulus
    ensures Iter(s, i) != Iter(s, j)
  {
    IterAdd(s, i, j - i);
    NoShortCycle(Iter(s, i), j - i);
  }

  ghost function DrawnStates(s: int, n: nat): set<int>
  {
    set k | 1 <= k <= n :: Iter(s, k)
  }

  lemma {:induction false} DrawnStatesCount(s: int, n: nat)
    requires n <= Modulus
    ensures |DrawnStates(s, n)| == n
  {
    if n > 0 {
      DrawnStatesCount(s, n - 1);
      assert DrawnStates(s, n) == DrawnStates(s, n - 1) + {Iter(s, n)};
      if Iter(s, n) in DrawnStates(s, n - 1) {
        var k :| 1 <= k <= n - 1 && Iter(s, k) == Iter(s, n);
        DrawsDistinct(s, k, n);
      }
    }
  }

  /** The set {0, ..., n - 1}. */
  ghost function Below(n: nat): (r: set<int>)
    ensures |r| == n
    ensures forall v :: v in r <==> 0 <= v < n
  {
    if n == 0 then {} else Below(n - 1) + {n - 1}
  }

  /** A subset of a finite set with as many elements is the whole set. */
  lemma SubsetOfSameSize<T>(small: set<T>, big: set<T>)
    requires small <= big && |small| == |big|
    ensures small == big
  {
    assert big * small == small;
    assert |big - small| == 0;
  }

  /** Full period: the first 2^32 draws from any initial state include every
      state in [0, 2^32). */
  lemma EveryStateDrawn(s: int, v: int) returns (k: nat)
    requires 0 <= v < Modulus
    ensures 1 <= k <= Modulus && Iter(s, k) == v
  {
    DrawnStatesCount(s, Modulus);
    assert DrawnStates(s, Modulus) <= Below(Modulus);
    SubsetOfSameSize(DrawnStates(s, Modulus), Below(Modulus));
    assert v in Below(Modulus);
    k :| 1 <= k <= Modulus && Iter(s, k) == v;
  }

  /** Every cell of a grid of at most 2^32 cells is selected by one of the
      first 2^32 draws. */
  lemma EveryCellDrawn(s: int, totalCells: nat, cell: int) returns (k: nat)
    requires 0 <= cell < totalCells <= Modulus
    ensures 1 <= k <= Modulus && CellOf(Iter(s, k), totalCells) == cell
  {
    var v := CellReachable(cell, totalCells);
    k := EveryStateDrawn(s, v);
  }
}
