/**
 * Mine-position selection, the loop both copies share (script.js
 * `generateMinePositions`, api.js `generatePrediction`): draw cells from the
 * generator and keep each cell the first time it is drawn. Stop when
 * `mineAmount` cells are kept or every cell has been kept.
 *
 * The specification `MinePositions` describes the result without a loop:
 * the first min(mineAmount, totalCells) distinct cells, in the order the
 * first 2^32 draws select them. Full period (module FullPeriod) makes every
 * cell appear among those draws, which is also why the loop terminates.
 */
module Selection {
  import opened Lcg
  import FullPeriod

  predicate Distinct(s: seq<int>)
  {
    forall i, j :: 0 <= i < j < |s| ==> s[i] != s[j]
  }

  function Elems(s: seq<int>): set<int>
  {
    set x | x in s
  }

  /** `mineAmount` as a count: a negative amount keeps no cell. */
  function Wanted(mineAmount: int, totalCells: nat): nat
  {
    if mineAmount < 0 then 0 else if mineAmount < totalCells then mineAmount else totalCells
  }

  /** The first `n` elements of `s`, or all of `s` when it is shorter. */
  function Take(s: seq<int>, n: nat): (r: seq<int>)
    ensures |r| == if n <= |s| then n else |s|
    ensures r == s[..|r|]
  {
    if n <= |s| then s[..n] else s
  }

  /** The cells selected by draws 1 to n from initial state `s0`. */
  function DrawnCells(s0: int, totalCells: nat, n: nat): (cells: seq<int>)
    ensures |cells| == n
    ensures forall i :: 0 <= i < n ==> cells[i] == CellOf(Iter(s0, i + 1), totalCells)
  {
    if n == 0 then [] else DrawnCells(s0, totalCells, n - 1) + [CellOf(Iter(s0, n), totalCells)]
  }

  /** The elements of `cells` in the order of their first occurrence. */
  function FirstOccurrences(cells: seq<int>): (r: seq<int>)
    ensures Distinct(r)
    ensures forall x :: x in r <==> x in cells
  {
    if cells == [] then []
    else
      var earlier := FirstOccurrences(cells[..|cells| - 1]);
      var last := cells[|cells| - 1];
      if last in earlier then earlier else earlier + [last]
  }

  /** The positions the loop returns, stated without the loop. */
  ghost function MinePositions(s0: int, mineAmount: int, totalCells: nat): (r: seq<int>)
    ensures |r| <= Wanted(mineAmount, totalCells)
    ensures Distinct(r)
  {
    Take(FirstOccurrences(DrawnCells(s0, totalCells, Modulus)), Wanted(mineAmount, totalCells))
  }

  // ---------------------------------------------------------------------
  // Lemmas about the specification

  /** Drawing more never reorders or drops the cells already kept. */
  lemma {:induction false} FirstOccurrencesPrefix(cells: seq<int>, n: nat)
    requires n <= |cells|
    ensures var kept := FirstOccurrences(cells[..n]);
      |kept| <= |FirstOccurrences(cells)| && kept == FirstOccurrences(cells)[..|kept|]
    decreases |cells| - n
  {
    if n < |cells| {
      FirstOccurrencesPrefix(cells, n + 1);
      assert cells[..n + 1][..n] == cells[..n];
    } else {
      assert cells[..n] == cells;
    }
  }

  lemma {:induction false} DistinctElemsCount(s: seq<int>)
    requires Distinct(s)
    ensures |Elems(s)| == |s|
  {
    if s != [] {
      var init := s[..|s| - 1];
      DistinctElemsCount(init);
      assert Elems(s) == Elems(init) + {s[|s| - 1]};
      assert s[|s| - 1] !in Elems(init);
    }
  }

  /** The first 2^32 draws select every cell of a grid of at most 2^32
      cells, so they hold exactly `totalCells` distinct cells. */
  lemma AllCellsDrawn(s0: int, totalCells: nat)
    requires 0 < totalCells <= Modulus
    ensures var all := FirstOccurrences(DrawnCells(s0, totalCells, Modulus));
      |all| == totalCells && forall x :: x in all <==> 0 <= x < totalCells
  {
    var cells := DrawnCells(s0, totalCells, Modulus);
    var all := FirstOccurrences(cells);
    forall x | 0 <= x < totalCells
      ensures x in all
    {
      var k := FullPeriod.EveryCellDrawn(s0, totalCells, x);
      assert cells[k - 1] == x;
    }
    forall x | x in all
      ensures 0 <= x < totalCells
    {
      var i :| 0 <= i < |cells| && cells[i] == x;
    }
    assert Elems(all) == FullPeriod.Below(totalCells);
    DistinctElemsCount(all);
  }

  /** Uniqueness, bounds and count of the positions. */
  lemma MinePositionsShape(s0: int, mineAmount: int, totalCells: nat)
    requires totalCells <= Modulus
    ensures var r := MinePositions(s0, mineAmount, totalCells);
      && |r| == Wanted(mineAmount, totalCells)
      && Distinct(r)
      && forall p :: p in r ==> 0 <= p < totalCells
  {
    var r := MinePositions(s0, mineAmount, totalCells);
    var all := FirstOccurrences(DrawnCells(s0, totalCells, Modulus));
    if totalCells > 0 {
      AllCellsDrawn(s0, totalCells);
    }
    assert r == all[..|r|];
    forall p | p in r
      ensures 0 <= p < totalCells
    {
      assert p in all;
      var i :| 0 <= i < |r| && r[i] == p;
      assert all[i] == p;
    }
  }

  /** Raising the mine count keeps the earlier positions, in the same order. */
  lemma MorePositionsExtend(s0: int, fewer: int, more: int, totalCells: nat)
    requires fewer <= more
    ensures var a, b := MinePositions(s0, fewer, totalCells), MinePositions(s0, more, totalCells);
      |a| <= |b| && a == b[..|a|]
  {
    var all := FirstOccurrences(DrawnCells(s0, totalCells, Modulus));
    var a, b := MinePositions(s0, fewer, totalCells), MinePositions(s0, more, totalCells);
    assert a == all[..|a|] && b == all[..|b|];
  }

  /** One more draw keeps its cell exactly when the cell is new. */
  lemma NextDraw(s0: int, totalCells: nat, n: nat)
    ensures var kept, cell := FirstOccurrences(DrawnCells(s0, totalCells, n)), CellOf(Iter(s0, n + 1), totalCells);
      FirstOccurrences(DrawnCells(s0, totalCells, n + 1)) == if cell in kept then kept else kept + [cell]
  {
    var cells := DrawnCells(s0, totalCells, n + 1);
    assert cells[..n] == DrawnCells(s0, totalCells, n);
  }

  // ---------------------------------------------------------------------
  // The loop

  /**
   * `seededRandom(seed)` followed by the selection loop: draw
   * `Math.floor(random() * totalCells)` and keep it if `used` lacks it,
   * while fewer than `mineAmount` positions are kept and not every cell is.
   * Returns the positions and the set `used`.
   */
  method DrawPositions(seed: nat, clock: nat, mineAmount: int, totalCells: nat)
    returns (positions: seq<int>, used: set<int>)
    requires totalCells <= Modulus
    ensures positions == MinePositions(InitialState(seed, clock), mineAmount, totalCells)
    ensures used == Elems(positions)
    ensures |positions| == Wanted(mineAmount, totalCells)
    ensures Distinct(positions)
    ensures forall p :: p in positions ==> 0 <= p < totalCells
  {
    var random := new SeededRandom(seed, clock);
    ghost var s0 := random.state;
    ghost var draws: nat := 0;
    positions, used := [], {};
    while |positions| < mineAmount && |used| < totalCells
      invariant draws <= Modulus
      invariant random.state == Iter(s0, draws)
      invariant positions == FirstOccurrences(DrawnCells(s0, totalCells, draws))
      invariant used == Elems(positions)
      invariant |used| == |positions|
      invariant |positions| <= Wanted(mineAmount, totalCells)
      invariant draws == Modulus ==> |used| == totalCells
      decreases Modulus - draws
    {
      var fraction := random.Next();
      var position := (fraction * totalCells as real).Floor;
      FloorOfScaledFraction(random.state, fraction, totalCells);
      NextDraw(s0, totalCells, draws);
      draws := draws + 1;
      if position !in used {
        used := used + {position};
        positions := positions + [position];
      }
      if draws == Modulus {
        AllCellsDrawn(s0, totalCells);
      }
    }
    SelectionFinished(s0, mineAmount, totalCells, draws);
  }

  /** When the loop stops, its positions are the specified ones. */
  lemma SelectionFinished(s0: int, mineAmount: int, totalCells: nat, draws: nat)
    requires draws <= Modulus && totalCells <= Modulus
    requires var kept := FirstOccurrences(DrawnCells(s0, totalCells, draws));
      |kept| <= Wanted(mineAmount, totalCells) && (|kept| >= mineAmount || |kept| >= totalCells)
    ensures var kept := FirstOccurrences(DrawnCells(s0, totalCells, draws));
      && kept == MinePositions(s0, mineAmount, totalCells)
      && |kept| == Wanted(mineAmount, totalCells)
      && forall p :: p in kept ==> 0 <= p < totalCells
  {
    var kept := FirstOccurrences(DrawnCells(s0, totalCells, draws));
    var cells := DrawnCells(s0, totalCells, Modulus);
    assert cells[..draws] == DrawnCells(s0, totalCells, draws);
    FirstOccurrencesPrefix(cells, draws);
    MinePositionsShape(s0, mineAmount, totalCells);
  }
}
