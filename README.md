# Knight-path counter, modelled in Dafny

The modelled component is the class `YeakelRobert` in `index.ts`. It is built from a configuration:

- a board of optional symbols, whose rows may differ in length;
- a list of move deltas;
- a set of restricted symbols;
- a move limit `maxMoves`;
- a threshold `maxRestrictedCharacters`.

`solve()` goes over every valid cell in row-major order. From each one it runs a depth-first search that counts the move sequences of exactly `maxMoves` moves that stay on valid cells. Cells may be revisited. A sequence is dropped as soon as its running count of restricted cells equals the threshold. That count includes the start cell and counts repeat visits again. `solve()` returns the sum of these counts.

The project has three modules.

- `Knight` (`knight.dfy`) holds:
  - the data model;
  - the JavaScript reading of a cell (`undefined`, `null` or a string, with `!!` truthiness);
  - the search as pure functions: `Count`/`Branches` for one start cell, and `RowSum`/`BoardSum`/`Paths` for the board;
  - a bound on the recursion depth;
  - the class itself. Its fields are fixed at construction. `KnightDfs` loops over the deltas with an accumulator, and `Solve` uses nested row/column loops. Both methods are proved equal to the pure functions.
- `KnightWalks` (`walks.dfy`) is an independent reference definition. A walk is a sequence of indices into the delta list, so a delta listed twice yields two walks. A walk is *accepted* when:
  - it stays on valid cells;
  - no prefix of it brings the running restricted count to the threshold.

  The module proves that `Count` is the number of accepted walks. From this it derives:
  - the two threshold regimes;
  - the bound `|moveDeltas|^maxMoves`;
  - monotonicity of the total in the threshold, from 1 upwards.
- `KnightScenarios` (`scenarios.dfy`) holds:
  - tiny concrete boards and the threshold edge cases;
  - lemmas about a single delta that stays put, which show that revisits are allowed and that restricted revisits count again;
  - a caller that builds the counter and asks for the total twice.

### How the code behaves at the threshold

The cutoff is an equality test, and it runs before the move-limit test. Two consequences follow.

- **Threshold 0.** A path counts exactly when its *start* cell is restricted.
  - A non-restricted start leaves the count at 0, which equals the threshold, so it is cut off at once.
  - A restricted start makes the count 1. The count never returns to 0, so the cutoff never fires and every on-board walk from that cell counts.

  The natural reading "no restricted cell may be visited" is therefore not what the code does. The model follows the code, in `KnightWalks.CountZeroThreshold`.
- **Monotonicity.** Raising the threshold never lowers the total only when the threshold is already at least 1 (`KnightWalks.PathsMonotone`). From 0 to 1 the total can fall. On the one-cell board `[["a"]]` with the vowels restricted and no moves, the total is 1 at threshold 0 and 0 at threshold 1 (`KnightScenarios.ThresholdZeroToOne`).

## Model

| member | source | states |
|---|---|---|
| Knight.IsValidPosition | index.ts:37-41 | a position is valid exactly when its row index is within the board, its column index is within that row's own length, and the cell holds a non-empty string (`null`, `""` and out-of-range lookups are falsy) |
| Knight.NextPositionUndo | index.ts:43-45 | the next position is componentwise addition, with no bounds check: moving by a delta and then by its opposite returns to the start, on or off the board |
| Knight.IsRestrictedCharacter | index.ts:47-50 | requires a valid position, since the cell is dereferenced as non-null; the test is set membership of the string the JavaScript lookup of that cell yields. `Count`, `Depth` and `KnightDfs` call it only on positions the verifier proves valid (the start cell, and a next cell after its validity test) |
| Knight.CountThresholdFirst | index.ts:52-58 | when the count after this cell's increment equals the threshold, the search returns 0, even with no moves left |
| Knight.CountAtLeaf | index.ts:59-61 | with no moves left and the threshold not reached, the search returns exactly 1 |
| Knight.BranchesStuck | index.ts:63-74 | when no delta leads to a valid cell, the sum over the deltas is 0 |
| Knight.Depth | index.ts:52-75 | the call tree below a call made after `totalMoves` moves is at least 1 and at most `maxMoves - totalMoves + 1` calls deep, so the search from a start cell nests at most `maxMoves + 1` calls |
| Knight.BranchDepth | index.ts:65-72 | the deepest call tree among the valid moves is at most `maxMoves - totalMoves` deep |
| Knight.RowCellsMembers | index.ts:81-84 | the cells visited in row `x` up to column `y` are exactly the valid cells of that row left of `y` |
| Knight.BoardCellsMembers | index.ts:78-85 | the cells visited in the first `x` rows, each up to its own length, are exactly the valid cells of those rows |
| Knight.ValidCells | index.ts:77-86 | the cells the traversal hands on after the validity test are exactly the valid cells of the board |
| Knight.RowCellsOrdered | index.ts:81-84 | within a row, cells are visited in increasing column order |
| Knight.BoardCellsOrdered | index.ts:78-85 | across rows, cells are visited in row-major order |
| Knight.ValidCellsOrdered | index.ts:77-86 | every valid cell is visited once, in row-major order |
| Knight.PathsOverValidCells | index.ts:92-100 | the total is the sum of the start counts over the valid cells in row-major order |
| Knight.PathsNoValidCells | index.ts:92-100 | a board without valid cells has total 0 |
| Knight.YeakelRobert.constructor | index.ts:17-35 | the counter's fields are exactly the configuration's fields |
| Knight.YeakelRobert.KnightDfs | index.ts:52-75 | the loop over the deltas, with `badCharacterCount` incremented in place and passed on by value, returns the search count of the pure definition; every call to the restricted-cell test is on a valid position |
| Knight.YeakelRobert.CalculateTotalPaths | index.ts:88-90 | the count from a start cell is the search started with 0 moves and 0 restricted cells |
| Knight.YeakelRobert.Solve | index.ts:77-100 | the nested row/column loops return the total over the board, each row walked up to its own length, only valid cells counted |
| KnightWalks.Walk | index.ts:43-45 | a walk starts at its start cell and each next position adds the chosen delta to the previous one |
| KnightWalks.Hits | index.ts:53-55 | the restricted count of a sequence of positions is at most its length |
| KnightWalks.HitsCountsRestricted | index.ts:53-55 | the restricted count of a sequence of positions is the number of its entries that are valid restricted cells, so a revisited restricted cell counts once per visit |
| KnightWalks.ChoicesSize | index.ts:65 | there are `|moveDeltas|^n` index sequences of length `n` |
| KnightWalks.ChoicesMembers | index.ts:65 | the enumerated index sequences are exactly those of length `n` with every index below the number of deltas |
| KnightWalks.ChoicesDistinct | index.ts:65 | no index sequence is enumerated twice |
| KnightWalks.NumAcceptedIsCardinality | index.ts:63-74 | over a repeat-free list, the number of accepted walks is the size of their set |
| KnightWalks.AcceptedHead | index.ts:53-58 | an accepted walk starts on a valid cell whose increment does not reach the threshold |
| KnightWalks.AcceptedNil | index.ts:53-61 | the empty walk is accepted exactly when the start cell is valid and its increment does not reach the threshold |
| KnightWalks.NeverReachesCons | index.ts:53-58 | a walk's running count never meets the threshold exactly when its first cell's increment does not, and the rest of the walk never does when it carries the incremented count |
| KnightWalks.AcceptedCons | index.ts:65-71 | a walk that begins with delta `j` is accepted exactly when its tail is accepted from the cell that delta leads to, carrying the incremented count |
| KnightWalks.NumAcceptedBlocked | index.ts:56-58 | from an invalid start, or one whose increment reaches the threshold, no walk is accepted |
| KnightWalks.CountIsNumAccepted | index.ts:52-75 | the search count equals the number of index sequences of the remaining length whose walks are accepted |
| KnightWalks.BranchesIsNumAccepted | index.ts:63-74 | the sum over the first `i` deltas equals the number of accepted walks whose first index is below `i` |
| KnightWalks.MoveIsNumAccepted | index.ts:65-71 | the move by delta `j` contributes the accepted walks that begin with `j`, and 0 when it leaves the valid cells |
| KnightWalks.ValidMoveIsNumAccepted | index.ts:68-70 | a move to a valid cell contributes the search count from that cell, which is the number of accepted walks beginning with that delta |
| KnightWalks.BlockedMoveIsNumAccepted | index.ts:68-69 | no accepted walk begins with a delta that leads off the valid cells |
| KnightWalks.CountCharacterised | index.ts:52-75 | the count from a start cell is the number of distinct index sequences of length `maxMoves` whose walks are accepted |
| KnightWalks.CountBound | index.ts:63-74 | the count is at most `|moveDeltas|^(maxMoves - totalMoves)` |
| KnightWalks.AcceptedBelowThreshold | index.ts:53-58 | for a threshold of 1 or more, a walk is accepted exactly when it stays on valid cells and meets fewer restricted cells than the threshold, repeats counted |
| KnightWalks.AcceptedZeroThreshold | index.ts:53-58 | for a threshold of 0, a walk is accepted exactly when it stays on valid cells and starts on a restricted cell |
| KnightWalks.CountBelowThreshold | index.ts:52-75 | for a threshold of 1 or more, the count from a start cell is the number of on-board walks of `maxMoves` moves with fewer restricted cells than the threshold |
| KnightWalks.CountZeroThreshold | index.ts:52-75 | for a threshold of 0, the count is the number of on-board walks when the start cell is restricted, and 0 otherwise |
| KnightWalks.CountMonotone | index.ts:56-58 | for thresholds of 1 or more, raising the threshold never lowers the count from a start cell |
| KnightWalks.PathsMonotone | index.ts:92-100 | for thresholds of 1 or more, raising the threshold never lowers the total |
| KnightScenarios.LoneVowel | index.ts:53-58 | `[["a"]]` with the vowels restricted, no moves and threshold 1 gives 0 |
| KnightScenarios.LoneConsonant | index.ts:59-61 | `[["b"]]` with the same settings gives 1 |
| KnightScenarios.ThresholdZeroToOne | index.ts:56-61 | `[["a"]]` gives 1 at threshold 0 and 0 at threshold 1, so the total is not monotone from 0 |
| KnightScenarios.InvalidCells | index.ts:37-41 | `null`, empty-string, past-the-row and negative-index cells are invalid, and a symbol cell is valid |
| KnightScenarios.StayPutFree | index.ts:52-74 | nothing forbids revisits: with the single delta (0, 0) on a valid unrestricted cell, the search counts exactly one path however many moves remain |
| KnightScenarios.StayPutRestricted | index.ts:53-61 | each revisit of a restricted cell counts again: staying put on one, the search returns 0 exactly when the threshold lies among the running counts `badCharacterCount + 1` to `badCharacterCount + remaining moves + 1`, and 1 otherwise |
| KnightScenarios.DoubledFromLeft | index.ts:65-72 | on two unrestricted cells with the delta (0, 1) listed twice and one move, the left cell yields 2 paths |
| KnightScenarios.DoubledFromRight | index.ts:65-72 | on the same board the right cell yields 0 paths, both moves leaving the board |
| KnightScenarios.DoubledDelta | index.ts:65-72 | a delta listed twice is followed twice, so that board's total is 2 |
| KnightScenarios.SolveTwice | index.ts:92-100 | two calls to `solve()` on one counter return the same total, the total of its configuration |

## Left out

- The module-level setup at index.ts:104-133 is not modelled: the knight deltas, the vowel set, the 5×5 board, the `maxMoves = 9` instance and the `console.log` of its result. Only small boards appear, in `KnightScenarios`. Evaluating the 5×5 instance by unfolding is far beyond what the verifier can do.
- JavaScript `number` semantics are not modelled. Coordinates and counts are unbounded integers, so precision loss above 2^53 is not captured.
- `traverseBoard` and its callback become the nested loops of `Solve`, which add to the total directly. The higher-order closure that updates a captured accumulator is not modelled.
- The `IKnightMoves` interface, the namespace and the type aliases at index.ts:1-8 are not modelled. They have no behaviour.
- Knight.YeakelRobert.KnightDfs: requires `totalMoves <= maxMoves`. The source has no such guard. With `totalMoves > maxMoves` the leaf test never fires, so the search can only return 0: it ends when every branch reaches the threshold or gets stuck with no delta leading to a valid cell, and otherwise it does not end. The model describes neither that case nor its divergence. `Solve` and `CalculateTotalPaths` likewise require `maxMoves >= 0`.
- Knight.IsRestrictedCharacter: requires a valid position, which is how the `!` dereference is used. At run time JavaScript needs only the row to exist, but every call in the class is on a position that passed `isValidPosition`, and the verifier checks exactly that at each call.
- Malformed configurations are not validated, as in the source: a non-integer `maxMoves` or a delta that is not a pair cannot be expressed in the model's types.
- Knight.Depth: the bound on the call depth is stated about a function that mirrors the call tree. It is not stated about the run-time stack of the method.
