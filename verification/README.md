# Mines predictor: the seeded mine-position generator

This project models the deterministic core of a browser "mines" predictor game. A
seed string is folded into a 32-bit number. That number starts a linear
congruential generator (LCG). The generator picks distinct cells of the grid as
mine positions. The same logic appears twice:

- in `script.js`, the `MinePredictor` class behind the page;
- in `api.js`, the `MineGameAPI` class that simulates a backend, validates its
  requests and also returns the safe cells.

The model keeps the source's shape:

- The LCG closure is a class (`Lcg.SeededRandom`) whose `Next` updates its state.
- The selection loop and the two `createSeedFromHash` loops are methods with loop
  invariants. Each is proved against a specification function:
  - `Selection.MinePositions`: the first distinct cells in draw order;
  - `Hashing.Fold`: the 32-bit rolling hash.
- The two game classes keep their fields and counters.

Modules, one per file:

| file | module | what |
|---|---|---|
| `hashing.dfy` | `Hashing` | ToInt32, the rolling hash of `createSeedFromHash`, `Math.abs`, the clock's decimal text |
| `lcg.dfy` | `Lcg` | the generator step, its fraction, `Math.floor(random() * totalCells)` in integers, `seededRandom` |
| `full_period.dfy` | `FullPeriod` | Hull-Dobell for these constants: the first 2^32 draws visit every state once |
| `selection.dfy` | `Selection` | the mine-position loop and its loop-free specification |
| `predictor.dfy` | `Predictor` | `MinePredictor` of script.js: seed, positions, multiplier, `generateMines`, `handlePredict` |
| `game_api.dfy` | `GameApi` | `MineGameAPI` of api.js: seed, `generatePrediction` with safe cells, `predictMines`, `detectHashFormat` |

Every reading of `Date.now()` is a separate natural-number parameter (`clock`,
`seedClock`, `stateClock`). Strings are sequences of UTF-16 code units, the values
`charCodeAt` returns.

The loop's termination rests on the full-period theorem. `FullPeriod` proves it
from the constants 1664525 and 1013904223: the multiplier minus one is divisible
by 4, and the increment is odd. From any start, fewer than 2^32 draws never
return to the same state, so draws 1 to 2^32 hit every state. Every cell of a
grid with at most 2^32 cells is therefore drawn, and the loop runs at most 2^32
times.

The clock enters in four places:

- In script.js (lines 222-224), an empty string is replaced by the text of
  `Date.now()` before hashing.
- A non-empty string whose fold is 0 falls back to the clock in `seededRandom`
  (script.js:239).
- In api.js, a fold of 0 falls back to the clock in `createSeedFromHash`
  (api.js:99).
- In api.js, `seededRandom` falls back to the clock once more (api.js:104).
  It is reached only when that first clock reading was itself 0.

## Model

| member | source | states |
|---|---|---|
| Hashing.ToInt32 | script.js:231 | the result is a 32-bit signed integer congruent to the input modulo 2^32 |
| Hashing.HashStep | script.js:230-231 | one fold step is a 32-bit integer congruent to 31 * hash + code modulo 2^32 |
| Hashing.ShiftLeft5 | script.js:230 | `hash << 5`, with both truncations JavaScript applies, yields a 32-bit signed integer |
| Hashing.AndSelf | script.js:231 | `hash & hash` yields a 32-bit signed integer |
| Hashing.LoopBodyIsHashStep | script.js:230-231 | the shift-subtract-add-and body, with JavaScript's 32-bit truncation of `<<` and `&`, equals ToInt32(31 * hash + code) for every hash and code unit |
| Hashing.FoldIsTruncatedPolynomial | script.js:227-232 | truncating after every step gives the same value as truncating the exact polynomial sum of code units times powers of 31 once |
| Hashing.Fold | script.js:227-232 | the fold of any string, one step per code unit from 0, is a 32-bit signed integer |
| Hashing.FoldSnoc | script.js:228-232 | folding one more code unit applies one more step to the fold of the prefix |
| Hashing.FoldCodeUnits | script.js:227-232 | the loop returns the fold of the whole string, i.e. ToInt32 of the polynomial hash |
| Hashing.Abs | script.js:234 | `Math.abs` returns x or -x and is never negative |
| Hashing.AbsOfInt32 | script.js:234 | the absolute value of a 32-bit integer lies in [0, 2^31] and is 0 only for 0 |
| Hashing.DecimalString | script.js:223 | the clock's text is non-empty, all decimal digits, with no leading zero |
| Hashing.DecimalStringValue | script.js:223 | the digits of the clock's text, read in base 10, spell the clock reading |
| Lcg.Step | script.js:241 | one step lands in [0, 2^32) |
| Lcg.Iter | script.js:241 | after at least one draw the state lies in [0, 2^32) |
| Lcg.IterAdd | script.js:241 | i draws followed by d draws are i + d draws |
| Lcg.Fraction | script.js:242 | the value a draw returns lies in [0, 1) |
| Lcg.CellOf | script.js:210 | the integer form of a draw's cell lies in [0, totalCells) |
| Lcg.FloorOfScaledFraction | script.js:210 | `Math.floor((state / 2^32) * totalCells)` equals (state * totalCells) div 2^32 |
| Lcg.CellReachable | script.js:210 | every cell of a grid with at most 2^32 cells is selected by some state |
| Lcg.SeededRandom.constructor | script.js:238-239 | the captured state starts from the seed, or from the clock when the seed is 0 |
| Lcg.SeededRandom.Next | script.js:240-243 | a call advances the state by one LCG step and returns state / 2^32, a value in [0, 1) |
| FullPeriod.NoShortCycle | script.js:241 | from a state below 2^32, d draws with 0 < d < 2^32 never return to that state |
| FullPeriod.DrawsDistinct | script.js:241 | draws 1 to 2^32 from any initial state yield pairwise distinct states |
| FullPeriod.DrawnStatesCount | script.js:241 | the first n <= 2^32 draws yield n distinct states |
| FullPeriod.EveryStateDrawn | script.js:241 | every state in [0, 2^32) is reached within the first 2^32 draws from any start |
| FullPeriod.EveryCellDrawn | script.js:209-210 | every cell of a grid with at most 2^32 cells is drawn within the first 2^32 draws |
| Selection.DrawnCells | script.js:210 | the i-th entry is the cell selected by draw i + 1 |
| Selection.FirstOccurrences | script.js:211-214 | the kept cells have no duplicates and hold exactly the cells drawn |
| Selection.MinePositions | script.js:199-218 | the positions the loop must return, stated without a loop: the first distinct cells in draw order, at most min(mineAmount, totalCells) of them, with no duplicates |
| Selection.FirstOccurrencesPrefix | script.js:213 | more draws only append: earlier kept cells stay, in the same order |
| Selection.DistinctElemsCount | script.js:211-212 | for duplicate-free positions, the size of `used` equals the number of positions |
| Selection.AllCellsDrawn | script.js:209 | the first 2^32 draws keep exactly the totalCells cells of the grid |
| Selection.MinePositionsShape | script.js:199-218 | the specified positions number min(mineAmount, totalCells), are distinct and lie in [0, totalCells) |
| Selection.MorePositionsExtend | script.js:209-213 | a larger mine count extends the positions of a smaller one, order kept |
| Selection.NextDraw | script.js:210-214 | one more draw keeps its cell exactly when the cell is new, appending it |
| Selection.SelectionFinished | script.js:209-217 | when the loop condition fails, the kept cells are the specified positions |
| Selection.DrawPositions | script.js:199-218 | the loop terminates; the positions equal the first min(mineAmount, totalCells) distinct cells in draw order; `used` is exactly their set; they are distinct and on the grid |
| Predictor.SeedFor | script.js:221-235 | the seed is at most 2^31; it is the absolute value of the fold for a non-empty string, and the fold of the clock's text for an empty one |
| Predictor.PayoutFor | script.js:173-180 | the multiplier is totalCells / (totalCells - mineAmount) * 0.99, and Infinity exactly when no safe cell is left |
| Predictor.PayoutIncreases | script.js:173-180 | the multiplier strictly increases with the mine count while a safe cell remains |
| Predictor.EightAsSeed | script.js:221-235 | "aaaaaaaa" folds to 312017024, which is its seed |
| Predictor.EightAsPositions | script.js:199-218 | from seed 312017024, three mines on 25 cells land on 4, 3 and 6, in that order |
| Predictor.EightAsPrediction | script.js:199-235 | "aaaaaaaa" with three mines gives 4, 3, 6 whatever the clocks read |
| Predictor.MinePredictor.constructor | script.js:3-13 | a 5 x 5 grid, an empty seed, one mine, no predicted mines, count 0 and multiplier 1.0 |
| Predictor.MinePredictor.CreateSeedFromHash | script.js:221-235 | the loop returns the seed of the string, in [0, 2^31] |
| Predictor.MinePredictor.GenerateMinePositions | script.js:199-218 | the positions are the specified ones for the derived seed: min(mineAmount, 25) distinct cells of the grid |
| Predictor.MinePredictor.CalculateMultiplier | script.js:173-183 | the field becomes the multiplier for the current mine count |
| Predictor.MinePredictor.ShownMines | script.js:96-113 | once every timer has fired, the shown mines are exactly the generated positions |
| Predictor.MinePredictor.GenerateMines | script.js:64-145 | the seed and mine count are stored; the predicted mines are the generated positions; the multiplier is recomputed; the prediction count rises by one |
| Predictor.MinePredictor.HandlePredict | script.js:432-450 | an empty input is replaced by the random hash; a mine count of 25 or more is refused with no state change; otherwise the prediction runs |
| GameApi.SeedFor | api.js:92-100 | for a non-zero fold the seed is its absolute value, in (0, 2^31]; for a zero fold it is the clock |
| GameApi.SafeCells | api.js:81-86 | the safe cells are exactly the cells in [0, n) not in `used`, in strictly ascending order |
| GameApi.SafeCellsIgnoresBeyond | api.js:82 | cells at or beyond the range do not affect the safe cells |
| GameApi.SafeCellsCount | api.js:72-86 | when `used` lies on the grid, the safe cells and `used` together number totalCells |
| GameApi.IsHexOfLength | api.js:128-130 | `/^[0-9a-f]{n}$/i`: exactly n hex digits in either case; any such non-empty text also matches the Base64 pattern |
| GameApi.DetectHashFormat | api.js:127-133 | SHA-256, SHA-1 and MD5 for exactly 64, 40 and 32 hex digits in either case; Base64 for other non-empty strings over [0-9A-Za-z+/=]; Custom exactly for the empty string or one with a character outside that set |
| GameApi.CopiesAgree | api.js:92-100 | for a string with a non-zero fold, both copies derive the same seed and the same positions, whatever any clock reads |
| GameApi.MineGameApi.constructor | api.js:5-8 | the request count starts at 0 |
| GameApi.MineGameApi.CreateSeedFromHash | api.js:92-100 | the loop returns the api.js seed of the string |
| GameApi.MineGameApi.GeneratePrediction | api.js:62-89 | the positions are the specified ones for the derived seed; the safe cells are their ascending complement; the two lists are disjoint, cover the grid and together number gridSize^2 |
| GameApi.MineGameApi.PredictMines | api.js:16-59 | each call raises the request count by one; a seed shorter than 8 fails with "Invalid hash seed provided"; a mine count outside [1, gridSize^2) fails with "Invalid mine amount"; otherwise the response carries the prediction with exactly mineAmount mines and gridSize^2 - mineAmount safe cells |

## Left out

- The page: grid creation, cell reveal, reset, status and multiplier display, icons, event binding, share, clipboard and JSON export (script.js). This is UI and browser I/O.
- Timers and latency: `delay`, the staggered `setTimeout` rendering, auto mode and the simulated API delay. Methods state the state reached once every timer has fired.
- `Date.now()` and `Math.random()`: each reading is a parameter. `generateRandomHash` is a parameter of `HandlePredict`, required only to be 64 code units long; that its code units are hex digits is not modelled.
- Timestamps and the `req_<time>_<n>` request id. The response keeps only the request number.
- `verifyHash`, `calculateEntropy` (floating-point `log2`), `getGameStats`, `submitGameResult`, `RealtimeFeatures`, the unused `baseURL` field, sounds.js, and the Python test files.
- Inputs that are not strings or integers: a null or undefined seed, a NaN from `parseInt`, a fractional or negative grid size. Mine counts are integers and grid sizes natural numbers.
- Lcg.SeededRandom.Next: the model computes exactly. JavaScript does too while the state is below 2^32, which holds after the first draw and from any hash-derived seed. A clock-derived initial state (a zero hash) is near 2^40, and its first product exceeds 2^53, so JavaScript rounds that one step.
- GameApi.MineGameApi.GeneratePrediction: requires a grid of at most 2^21 cells. Beyond that, state * totalCells exceeds 2^53 and `Math.floor(random() * totalCells)` may round in JavaScript.
- GameApi.MineGameApi.PredictMines: requires the same 2^21-cell bound, but only for requests that pass validation.
- Predictor.PayoutFor: the multiplier is computed over exact reals, with 1 - 0.01 as exactly 0.99. JavaScript doubles round it.
- Predictor.MinePredictor.HandlePredict: takes the already trimmed input; `trim` is not modelled.
- `gameStartTime`: `generateMines` records `Date.now()` in this field (script.js:68). Only the omitted statistics read it, so the model has no such field.
- The default argument `gridSize = 5` of `predictMines` (api.js:16): the model always takes `gridSize` explicitly. A call that omits it corresponds to passing 5.
