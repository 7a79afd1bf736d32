/**
 * The game logic of script.js: the class `MinePredictor`, less its DOM,
 * timer and sound plumbing. The model keeps the fields that the prediction
 * logic reads and writes: the seed string, the mine count, the predicted
 * mines, the prediction counter and the payout multiplier.
 */
module Predictor {
  import opened Hashing
  import opened Lcg
  import opened Selection

  /** A JavaScript number that the multiplier can take: a finite value, or
      Infinity, which is what `1 / 0` gives. */
  datatype Payout = Finite(value: real) | Infinity

  const HouseEdge: real := 0.01

  /** The seed script.js derives from a string: an empty string is first
      replaced by the decimal text of the clock reading `clock`. */
  function SeedFor(hashString: JsString, clock: nat): (seed: nat)
    ensures seed <= TwoTo31
    ensures hashString != [] ==> seed == Abs(Fold(hashString))
    ensures hashString == [] ==> seed == Abs(Fold(DecimalString(clock)))
  {
    var input := if hashString == [] then DecimalString(clock) else hashString;
    AbsOfInt32(Fold(input));
    Abs(Fold(input))
  }

  /** The multiplier `calculateMultiplier` computes for `mineAmount` mines
      among `totalCells` cells: the inverse of the chance of a safe cell,
      less the house edge. */
  function PayoutFor(totalCells: nat, mineAmount: int): (payout: Payout)
    requires totalCells > 0
    ensures payout == Infinity <==> mineAmount == totalCells
    ensures mineAmount != totalCells ==>
      payout == Finite(totalCells as real / (totalCells - mineAmount) as real * 0.99)
  {
    var safeCells := totalCells - mineAmount;
    var winProbability := safeCells as real / totalCells as real;
    if winProbability == 0.0 then Infinity
    else
      var fairMultiplier := 1.0 / winProbability;
      InverseOfQuotient(safeCells as real, totalCells as real);
      Finite(fairMultiplier * (1.0 - HouseEdge))
  }

  lemma InverseOfQuotient(a: real, b: real)
    requires a != 0.0 && b != 0.0
    ensures 1.0 / (a / b) == b / a
  {
    assert (a / b) * (b / a) == 1.0;
  }

  /** n / x < n / y for 0 < y < x and n > 0. */
  lemma QuotientShrinks(n: real, x: real, y: real)
    requires n > 0.0 && 0.0 < y < x
    ensures n / x < n / y
  {
    assert (n / x) * x == n && (n / y) * y == n;
    assert (n / y) * x > (n / y) * y;
  }

  /** More mines pay more: the multiplier strictly increases with the mine
      count while at least one safe cell remains. */
  lemma PayoutIncreases(totalCells: nat, fewer: int, more: int)
    requires 0 <= fewer < more < totalCells
    ensures PayoutFor(totalCells, fewer).value < PayoutFor(totalCells, more).value
  {
    QuotientShrinks(totalCells as real, (totalCells - fewer) as real, (totalCells - more) as real);
  }

  /** The seed string "aaaaaaaa". */
  const EightAs: JsString := [97, 97, 97, 97, 97, 97, 97, 97]

  /** A reference value: "aaaaaaaa" folds to 312017024. */
  lemma EightAsSeed(clock: nat)
    ensures Fold(EightAs) == 312017024
    ensures SeedFor(EightAs, clock) == 312017024
  {
    var s := EightAs;
    assert s[..0] == [];
    FoldSnoc(s, 0);
    HashStepIs(0, 97, 97, 0);
    FoldSnoc(s, 1);
    HashStepIs(97, 97, 3104, 0);
    FoldSnoc(s, 2);
    HashStepIs(3104, 97, 96321, 0);
    FoldSnoc(s, 3);
    HashStepIs(96321, 97, 2986048, 0);
    FoldSnoc(s, 4);
    HashStepIs(2986048, 97, 92567585, 0);
    FoldSnoc(s, 5);
    HashStepIs(92567585, 97, -1425372064, 1);
    FoldSnoc(s, 6);
    HashStepIs(-1425372064, 97, -1236860927, -10);
    FoldSnoc(s, 7);
    HashStepIs(-1236860927, 97, 312017024, -9);
    assert s[..8] == s;
  }

  /** From seed 312017024, three mines on the 5 x 5 grid land on cells 4, 3
      and 6, in that order. */
  lemma EightAsPositions(stateClock: nat)
    ensures MinePositions(InitialState(312017024, stateClock), 3, 25) == [4, 3, 6]
  {
    var s0 := 312017024;
    assert Iter(s0, 1) == 820443615;
    assert Iter(s0, 2) == 645889458;
    assert Iter(s0, 3) == 1130316137;
    var cells := DrawnCells(s0, 25, 3);
    assert cells == [4, 3, 6];
    assert cells[..1] == [4] && cells[..2] == [4, 3];
    assert cells[..2][..1] == cells[..1];
    assert FirstOccurrences(cells[..1]) == [4];
    assert FirstOccurrences(cells[..2]) == [4, 3];
    assert FirstOccurrences(cells) == [4, 3, 6];
    SelectionFinished(s0, 3, 25, 3);
  }

  /** The reference scenario end to end: seed string "aaaaaaaa", three mines,
      whatever the clocks read. */
  lemma EightAsPrediction(seedClock: nat, stateClock: nat)
    ensures MinePositions(InitialState(SeedFor(EightAs, seedClock), stateClock), 3, 25) == [4, 3, 6]
  {
    EightAsSeed(seedClock);
    EightAsPositions(stateClock);
  }

  class MinePredictor {
    const gridSize: nat := 5
    const totalCells: nat := gridSize * gridSize
    var hashSeed: JsString
    var mineAmount: int
    var predictedMines: set<int>
    var predictionCount: nat
    var currentMultiplier: Payout

    constructor ()
      ensures hashSeed == [] && mineAmount == 1 && predictedMines == {}
      ensures predictionCount == 0 && currentMultiplier == Finite(1.0)
    {
      hashSeed := [];
      mineAmount := 1;
      predictedMines := {};
      predictionCount := 0;
      currentMultiplier := Finite(1.0);
    }

    /** `createSeedFromHash`: the absolute value of the fold, in [0, 2^31]. */
    method CreateSeedFromHash(hashString: JsString, clock: nat) returns (seed: nat)
      ensures seed == SeedFor(hashString, clock)
      ensures hashString != [] ==> seed == Abs(ToInt32(Polynomial(hashString)))
      ensures seed <= TwoTo31
    {
      var input := hashString;
      if |input| == 0 {
        input := DecimalString(clock);
      }
      var hash := FoldCodeUnits(input);
      seed := Abs(hash);
    }

    /** `generateMinePositions`: distinct cells of the 5 x 5 grid in the
        order they were drawn, as many as `mineAmount` asks for. */
    method GenerateMinePositions(hashSeed: JsString, mineAmount: int, seedClock: nat, stateClock: nat)
      returns (positions: seq<int>)
      ensures positions == MinePositions(InitialState(SeedFor(hashSeed, seedClock), stateClock), mineAmount, totalCells)
      ensures |positions| == Wanted(mineAmount, totalCells)
      ensures Distinct(positions)
      ensures forall p :: p in positions ==> 0 <= p < totalCells
    {
      var seed := CreateSeedFromHash(hashSeed, seedClock);
      var used;
      positions, used := DrawPositions(seed, stateClock, mineAmount, totalCells);
    }

    /** `calculateMultiplier` */
    method CalculateMultiplier()
      modifies this`currentMultiplier
      ensures currentMultiplier == PayoutFor(totalCells, mineAmount)
    {
      var safeCells := totalCells - mineAmount;
      var winProbability := safeCells as real / totalCells as real;
      var houseEdge := 0.01;
      if winProbability == 0.0 {
        currentMultiplier := Infinity;
      } else {
        var fairMultiplier := 1.0 / winProbability;
        currentMultiplier := Finite(fairMultiplier * (1.0 - houseEdge));
      }
    }

    /** `generateMines`, with every staggered timer already fired: the grid
        shows exactly the generated positions as mines. */
    method GenerateMines(hashSeed: JsString, mineAmount: int, seedClock: nat, stateClock: nat)
      modifies this
      ensures this.hashSeed == hashSeed && this.mineAmount == mineAmount
      ensures predictedMines ==
        Elems(MinePositions(InitialState(SeedFor(hashSeed, seedClock), stateClock), mineAmount, totalCells))
      ensures currentMultiplier == PayoutFor(totalCells, mineAmount)
      ensures predictionCount == old(predictionCount) + 1
    {
      this.hashSeed := hashSeed;
      this.mineAmount := mineAmount;
      var minePositions := GenerateMinePositions(hashSeed, mineAmount, seedClock, stateClock);
      var mines := ShownMines(minePositions, totalCells);
      predictedMines := mines;
      CalculateMultiplier();
      predictionCount := predictionCount + 1;
    }

    /** The timers of `generateMines`: each adds its position to the shown
        mines when it lies on the grid. */
    static method ShownMines(minePositions: seq<int>, totalCells: nat) returns (mines: set<int>)
      requires forall p :: p in minePositions ==> 0 <= p < totalCells
      ensures mines == Elems(minePositions)
    {
      mines := {};
      for index := 0 to |minePositions|
        invariant mines == Elems(minePositions[..index])
      {
        var position := minePositions[index];
        assert minePositions[..index + 1] == minePositions[..index] + [position];
        assert Elems(minePositions[..index + 1]) == Elems(minePositions[..index]) + {position};
        assert position in minePositions;
        if position < totalCells {
          mines := mines + {position};
        }
      }
      assert minePositions[..|minePositions|] == minePositions;
    }

    /**
     * `handlePredict` on the trimmed text of the seed input. An empty input
     * is replaced by `randomHash`, which stands for the string of 64 hex
     * digits `generateRandomHash` produces; the model asks only for its
     * length of 64 code units. A mine count that leaves no safe cell is refused (the
     * source shows an alert) and nothing changes.
     */
    method HandlePredict(input: JsString, mineAmount: int, randomHash: JsString, seedClock: nat, stateClock: nat)
      returns (accepted: bool)
      requires |randomHash| == 64
      modifies this
      ensures accepted <==> mineAmount < totalCells
      ensures !accepted ==> unchanged(this)
      ensures accepted ==> hashSeed == (if input == [] then randomHash else input)
      ensures accepted ==> this.mineAmount == mineAmount
      ensures accepted ==>
        predictedMines == Elems(MinePositions(InitialState(SeedFor(hashSeed, seedClock), stateClock), mineAmount, totalCells))
      ensures accepted ==> currentMultiplier == PayoutFor(totalCells, mineAmount)
      ensures accepted ==> predictionCount == old(predictionCount) + 1
    {
      var hashSeed := if input == [] then randomHash else input;
      if mineAmount >= totalCells {
        return false;
      }
      GenerateMines(hashSeed, mineAmount, seedClock, stateClock);
      accepted := true;
    }
  }
}
