/**
 * The simulated backend of api.js: the class `MineGameAPI`, less its
 * artificial delays and timestamps. It repeats the seed fold, the generator
 * and the selection loop of script.js, adds the list of safe cells, and
 * wraps the result in a success or failure response.
 */
module GameApi {
  import opened Hashing
  import opened Lcg
  import opened Selection
  import Predictor

  /** The largest grid for which `Math.floor(random() * totalCells)` is exact
      in double arithmetic: state * totalCells stays below 2^53. */
  const MaxExactCells: nat := 0x20_0000

  const PredictionFailed: string := "PREDICTION_FAILED"
  const InvalidHashSeed: string := "Invalid hash seed provided"
  const InvalidMineAmount: string := "Invalid mine amount"
  const Algorithm: string := "SHA-256 + Seeded RNG"

  /** The seed api.js derives from a string: a fold of 0 is replaced by the
      clock reading `clock` before the absolute value is taken. */
  function SeedFor(hashString: JsString, clock: nat): (seed: nat)
    ensures Fold(hashString) != 0 ==> seed == Abs(Fold(hashString)) && 0 < seed <= TwoTo31
    ensures Fold(hashString) == 0 ==> seed == clock
  {
    var hash := Fold(hashString);
    AbsOfInt32(hash);
    Abs(if hash == 0 then clock else hash)
  }

  /** The cells 0 .. n - 1 missing from `used`, in ascending order. */
  function SafeCells(used: set<int>, n: nat): (safe: seq<int>)
    ensures forall x :: x in safe <==> 0 <= x < n && x !in used
    ensures forall i, j :: 0 <= i < j < |safe| ==> safe[i] < safe[j]
  {
    if n == 0 then []
    else
      var below := SafeCells(used, n - 1);
      if n - 1 in used then below
      else
        assert forall i :: 0 <= i < |below| ==> below[i] < n - 1 by {
          forall i | 0 <= i < |below|
            ensures below[i] < n - 1
          {
            assert below[i] in below;
          }
        }
        below + [n - 1]
  }

  /** Cells at or beyond the end of the range do not affect the safe cells. */
  lemma {:induction false} SafeCellsIgnoresBeyond(used: set<int>, cell: int, n: nat)
    requires n <= cell
    ensures SafeCells(used - {cell}, n) == SafeCells(used, n)
  {
    if n > 0 {
      SafeCellsIgnoresBeyond(used, cell, n - 1);
    }
  }

  /** The mines and the safe cells together fill the grid. */
  lemma {:induction false} SafeCellsCount(used: set<int>, n: nat)
    requires forall x :: x in used ==> 0 <= x < n
    ensures |SafeCells(used, n)| + |used| == n
  {
    if n == 0 {
      assert used == {};
    } else {
      var rest := used - {n - 1};
      SafeCellsCount(rest, n - 1);
      SafeCellsIgnoresBeyond(used, n - 1, n - 1);
      if n - 1 in used {
        assert used == rest + {n - 1} by {
          forall x | x in used
            ensures x in rest + {n - 1}
          {
          }
        }
        assert |used| == |rest| + 1;
        assert SafeCells(used, n) == SafeCells(used, n - 1);
      } else {
        assert used == rest;
        assert |SafeCells(used, n)| == |SafeCells(used, n - 1)| + 1;
      }
    }
  }

  /** The validated prediction api.js returns, less its timestamp; the
      request id keeps only the request number. */
  datatype Prediction = Prediction(
    hashSeed: JsString,
    mineAmount: int,
    gridSize: nat,
    minePositions: seq<int>,
    safePositions: seq<int>,
    algorithm: string,
    requestNumber: nat)

  datatype Response =
    | Success(data: Prediction)
    | Failure(code: string, message: string)

  /** The formats `detectHashFormat` tells apart. */
  datatype HashFormat = Sha256 | Sha1 | Md5 | Base64 | Custom

  /** `[0-9a-f]` under the `i` flag. */
  predicate IsHexDigit(c: CodeUnit)
  {
    || '0' as int <= c <= '9' as int
    || 'a' as int <= c <= 'f' as int
    || 'A' as int <= c <= 'F' as int
  }

  /** `[0-9A-Za-z+/=]` */
  predicate IsBase64Char(c: CodeUnit)
  {
    || '0' as int <= c <= '9' as int
    || 'A' as int <= c <= 'Z' as int
    || 'a' as int <= c <= 'z' as int
    || c == '+' as int || c == '/' as int || c == '=' as int
  }

  /** `/^[0-9a-f]{n}$/i` */
  predicate IsHexOfLength(s: JsString, n: nat)
    ensures IsHexOfLength(s, n) && n > 0 ==> IsBase64Text(s)
  {
    |s| == n && forall i :: 0 <= i < |s| ==> IsHexDigit(s[i])
  }

  /** `/^[0-9A-Za-z+/=]+$/` */
  predicate IsBase64Text(s: JsString)
  {
    |s| > 0 && forall i :: 0 <= i < |s| ==> IsBase64Char(s[i])
  }

  /** `detectHashFormat`: the first pattern that matches decides. */
  function DetectHashFormat(hash: JsString): (format: HashFormat)
    ensures format == Sha256 <==> IsHexOfLength(hash, 64)
    ensures format == Sha1 <==> IsHexOfLength(hash, 40)
    ensures format == Md5 <==> IsHexOfLength(hash, 32)
    ensures format == Base64 <==>
      IsBase64Text(hash) && !(IsHexOfLength(hash, 64) || IsHexOfLength(hash, 40) || IsHexOfLength(hash, 32))
    ensures format == Custom <==> hash == [] || exists i :: 0 <= i < |hash| && !IsBase64Char(hash[i])
  {
    if IsHexOfLength(hash, 64) then Sha256
    else if IsHexOfLength(hash, 40) then Sha1
    else if IsHexOfLength(hash, 32) then Md5
    else if IsBase64Text(hash) then Base64
    else Custom
  }

  /**
   * Where the fold is not 0, the two copies derive the same seed and the
   * same mine positions from a string, whatever the clock reads at the two
   * places in each copy that may consult it.
   */
  lemma CopiesAgree(hashSeed: JsString, mineAmount: int, totalCells: nat,
                    scriptSeedClock: nat, scriptStateClock: nat, apiSeedClock: nat, apiStateClock: nat)
    requires Fold(hashSeed) != 0
    ensures Predictor.SeedFor(hashSeed, scriptSeedClock) == SeedFor(hashSeed, apiSeedClock)
    ensures InitialState(Predictor.SeedFor(hashSeed, scriptSeedClock), scriptStateClock) == Abs(Fold(hashSeed))
    ensures MinePositions(InitialState(Predictor.SeedFor(hashSeed, scriptSeedClock), scriptStateClock), mineAmount, totalCells)
         == MinePositions(InitialState(SeedFor(hashSeed, apiSeedClock), apiStateClock), mineAmount, totalCells)
  {
    assert hashSeed != [];
  }

  class MineGameApi {
    var requestCount: nat

    constructor ()
      ensures requestCount == 0
    {
      requestCount := 0;
    }

    /** `createSeedFromHash` */
    method CreateSeedFromHash(hashString: JsString, clock: nat) returns (seed: nat)
      ensures seed == SeedFor(hashString, clock)
      ensures Fold(hashString) != 0 ==> seed == Abs(ToInt32(Polynomial(hashString)))
    {
      var hash := FoldCodeUnits(hashString);
      seed := Abs(if hash == 0 then clock else hash);
    }

    /** `generatePrediction`: the mine positions as script.js draws them,
        and the remaining cells in ascending order. */
    method GeneratePrediction(hashSeed: JsString, mineAmount: int, gridSize: nat, seedClock: nat, stateClock: nat)
      returns (positions: seq<int>, safePositions: seq<int>)
      requires gridSize * gridSize <= MaxExactCells
      ensures positions == MinePositions(InitialState(SeedFor(hashSeed, seedClock), stateClock), mineAmount, gridSize * gridSize)
      ensures safePositions == SafeCells(Elems(positions), gridSize * gridSize)
      ensures |positions| == Wanted(mineAmount, gridSize * gridSize)
      ensures |positions| + |safePositions| == gridSize * gridSize
      ensures forall x :: x in safePositions ==> x !in positions
      ensures forall x :: 0 <= x < gridSize * gridSize ==> x in positions || x in safePositions
    {
      var totalCells: nat := gridSize * gridSize;
      var seed := CreateSeedFromHash(hashSeed, seedClock);
      var used;
      positions, used := DrawPositions(seed, stateClock, mineAmount, totalCells);
      safePositions := [];
      for i := 0 to totalCells
        invariant safePositions == SafeCells(used, i)
      {
        if i !in used {
          safePositions := safePositions + [i];
        }
      }
      DistinctElemsCount(positions);
      SafeCellsCount(used, totalCells);
    }

    /**
     * `predictMines`: count the request, validate the seed and the mine
     * count, and answer with the prediction or the validation message.
     * A valid request always gets exactly `mineAmount` mines.
     */
    method PredictMines(hashSeed: JsString, mineAmount: int, gridSize: nat, seedClock: nat, stateClock: nat)
      returns (response: Response)
      requires |hashSeed| >= 8 && 1 <= mineAmount < gridSize * gridSize ==> gridSize * gridSize <= MaxExactCells
      modifies this
      ensures requestCount == old(requestCount) + 1
      ensures |hashSeed| < 8 ==> response == Failure(PredictionFailed, InvalidHashSeed)
      ensures |hashSeed| >= 8 && (mineAmount < 1 || mineAmount >= gridSize * gridSize) ==>
        response == Failure(PredictionFailed, InvalidMineAmount)
      ensures |hashSeed| >= 8 && 1 <= mineAmount < gridSize * gridSize ==>
        var positions := MinePositions(InitialState(SeedFor(hashSeed, seedClock), stateClock), mineAmount, gridSize * gridSize);
        response == Success(Prediction(hashSeed, mineAmount, gridSize, positions,
          SafeCells(Elems(positions), gridSize * gridSize), Algorithm, requestCount))
      ensures response.Success? ==>
        && |response.data.minePositions| == mineAmount
        && |response.data.safePositions| == gridSize * gridSize - mineAmount
    {
      requestCount := requestCount + 1;
      if |hashSeed| < 8 {
        return Failure(PredictionFailed, InvalidHashSeed);
      }
      if mineAmount < 1 || mineAmount >= gridSize * gridSize {
        return Failure(PredictionFailed, InvalidMineAmount);
      }
      var positions, safePositions := GeneratePrediction(hashSeed, mineAmount, gridSize, seedClock, stateClock);
      response := Success(Prediction(hashSeed, mineAmount, gridSize, positions, safePositions, Algorithm, requestCount));
    }
  }
}
