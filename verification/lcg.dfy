/**
 * The linear congruential generator behind both copies of `seededRandom`
 * (script.js and api.js). The generator keeps one number, its state; every
 * draw replaces the state by (state * 1664525 + 1013904223) mod 2^32 and
 * returns state / 2^32.
 *
 * JavaScript does this arithmetic on doubles. Once the state is below 2^32,
 * every intermediate value stays below 2^53, so the double arithmetic is exact
 * and the model uses unbounded integers (the one exception, a clock-derived
 * first state, is described in README.md).
 */
module Lcg {

  const Multiplier: int := 1664525
  const Increment: int := 1013904223
  /** The modulus 2^32; `4294967296` in the source. */
  const Modulus: int := 0x1_0000_0000

  /** One step of the generator. JavaScript's `%` on the non-negative
      operand agrees with Dafny's Euclidean `%`. */
  function Step(state: int): (next: int)
    ensures 0 <= next < Modulus
  {
    (state * Multiplier + Increment) % Modulus
  }

  /** The state after `n` draws from initial state `s`. */
  function Iter(s: int, n: nat): (state: int)
    ensures n > 0 ==> 0 <= state < Modulus
  {
    if n == 0 then s else Step(Iter(s, n - 1))
  }

  /** Drawing `i` then `d` times is drawing `i + d` times. */
  lemma {:induction false} IterAdd(s: int, i: nat, d: nat)
    ensures Iter(s, i + d) == Iter(Iter(s, i), d)
  {
    if d > 0 {
      IterAdd(s, i, d - 1);
    }
  }

  /** The value a draw returns: the new state divided by 2^32. */
  function Fraction(state: int): (f: real)
    requires 0 <= state < Modulus
    ensures 0.0 <= f < 1.0
  {
    state as real / Modulus as real
  }

  /** The cell a draw selects, `Math.floor(random() * totalCells)`, stated
      in integers. `FloorOfScaledFraction` proves the two agree. */
  function CellOf(state: int, totalCells: nat): (cell: int)
    requires 0 <= state < Modulus
    ensures totalCells > 0 ==> 0 <= cell < totalCells
    ensures totalCells == 0 ==> cell == 0
  {
    var product := state * totalCells;
    assert product < Modulus * totalCells || totalCells == 0 by {
      if totalCells > 0 {
        assert state * totalCells < Modulus * totalCells;
      }
    }
    product / Modulus
  }

  /** `Math.floor((state / 2^32) * totalCells)` is the integer quotient
      (state * totalCells) div 2^32: scaling the fraction loses nothing. */
  lemma FloorOfScaledFraction(state: int, fraction: real, totalCells: nat)
    requires 0 <= state < Modulus
    requires fraction == Fraction(state)
    ensures (fraction * totalCells as real).Floor == CellOf(state, totalCells)
  {
    var q := (state * totalCells) / Modulus;
    var r := (state * totalCells) % Modulus;
    assert state * totalCells == q * Modulus + r;
    var x := fraction * totalCells as real;
    assert x == (state * totalCells) as real / Modulus as real;
    assert x == q as real + r as real / Modulus as real;
    assert 0.0 <= r as real / Modulus as real < 1.0;
  }

  /** For every cell of a grid of at most 2^32 cells there is a state that
      selects it. */
  lemma CellReachable(cell: int, totalCells: nat) returns (state: int)
    requires 0 <= cell < totalCells <= Modulus
    ensures 0 <= state < Modulus
    ensures CellOf(state, totalCells) == cell
  {
    var target := cell * Modulus + totalCells - 1;
    state := target / totalCells;
    var r := target % totalCells;
    assert target == state * totalCells + r && 0 <= r < totalCells;
    var product := state * totalCells;
    assert cell * Modulus <= product < cell * Modulus + Modulus;
    QuotientBetween(product, cell);
    ScaleBelowModulus(cell, totalCells);
    FactorBounds(state, totalCells, product);
  }

  /** q * 2^32 <= x < (q + 1) * 2^32 pins the quotient x div 2^32 to q. */
  lemma QuotientBetween(x: int, q: int)
    requires q * Modulus <= x < q * Modulus + Modulus
    ensures x / Modulus == q
  {
  }

  lemma ScaleBelowModulus(cell: int, totalCells: nat)
    requires 0 <= cell < totalCells <= Modulus
    ensures cell * Modulus + Modulus <= totalCells * Modulus
  {
    assert (cell + 1) * Modulus <= totalCells * Modulus;
  }

  /** A factor whose product with a positive number lies in [0, n * 2^32)
      lies in [0, 2^32). */
  lemma FactorBounds(state: int, totalCells: nat, product: int)
    requires totalCells > 0 && product == state * totalCells
    requires 0 <= product < totalCells * Modulus
    ensures 0 <= state < Modulus
  {
  }

  /**
   * The closure returned by `seededRandom(seed)`: its captured variable
   * `state` becomes a field, and each call of the closure is `Next`.
   */
  class SeededRandom {
    var state: int

    /** `let state = seed || Date.now()`: a zero seed is replaced by the
        clock reading `clock`. */
    constructor (seed: nat, clock: nat)
      ensures state == InitialState(seed, clock)
    {
      state := if seed == 0 then clock else seed;
    }

    /** One call of the closure. */
    method Next() returns (fraction: real)
      modifies this
      ensures state == Step(old(state))
      ensures fraction == Fraction(state)
      ensures 0.0 <= fraction < 1.0
    {
      state := (state * Multiplier + Increment) % Modulus;
      fraction := state as real / Modulus as real;
    }
  }

  /** The state `seededRandom` starts from: the seed, or the clock reading
      when the seed is zero. */
  function InitialState(seed: nat, clock: nat): nat
  {
    if seed == 0 then clock else seed
  }
}
