# Manufacturing setup simulator: the sequence-optimization core in Dafny

The game asks a player to order a set of machines so that the total changeover
("setup") time is as small as possible. Each ordered pair of machines has a setup time
in a directed matrix. The model covers the code behind that:

- the cost of a sequence, read from an in-memory matrix (`calculateTotalSetupTimeFromCache`)
  or from the equipment and setup-matrix tables (`calculateTotalSetupTime`);
- the Held-Karp bitmask search `findOptimalSequenceDP`, as an imperative method over a
  dense two-dimensional table;
- the brute-force search `findOptimalSequence`, over the recursive `permute`;
- the score and rank derived from a player's time;
- the single-slot result cache;
- the client's game store and its drag-and-drop placement hook, as classes whose methods
  update their fields;
- the `MM:SS` formatting of the timer.

Files and modules:

| file | module | models |
|---|---|---|
| `common.dfy` | `Common` | result and error types, the "first strictly smaller" scan shared by both solvers |
| `bitmask.dfy` | `Bitmask` | the shifts, bit tests, bitwise or and exclusive or of the masks, on natural numbers |
| `setup_matrix.dfy` | `SetupMatrix` | the `SetupMatrixCache` object and the cost of a sequence read from it |
| `held_karp.dfy` | `HeldKarp` | the table the Held-Karp loops fill, defined cell by cell, and its optimality |
| `setup_time_optimizer.dfy` | `SetupTimeOptimizer` | `findOptimalSequenceDP` and `calculateTotalSetupTimeFromCache` as loops |
| `permutations.dfy` | `Permutations` | `permute` |
| `setup_time_calculator.dfy` | `SetupTimeCalculator` | `calculateTotalSetupTime`, `findOptimalSequence`, `calculateScore`, `getRank` |
| `optimal_cache.dfy` | `OptimalCache` | `getCachedOptimal`, `setCachedOptimal`, `clearCachedOptimal` |
| `placement.dfy` | `Placement` | the placement list and its filter-then-renumber step |
| `game_store.dfy` | `GameStore` | the zustand store |
| `equipment_drag_drop.dfy` | `EquipmentDragDrop` | the `useEquipmentDragDrop` hook |
| `timer.dfy` | `Timer` | `formatTime` |

How the Held-Karp method is proved. `HeldKarp.TableCell(mask, l)` defines, by recursion
on `mask`, the value the loops leave in `dp[mask][l]`. A cell `(mask, l)` is written only
while the loops process `mask` without bit `l`. Its final value is therefore a fold over
`last` of the relaxation step (`HeldKarp.Relaxed`). The loops of
`SetupTimeOptimizer.FillTable` keep the table equal to that definition for every mask
already processed. The scan and the back-pointer walk are then proved to return
`HeldKarp.HeldKarpResult`, and the lemmas about that function state what it means.

Only paths that start at `equipmentCodes[0]` are searched, because the table is seeded
only at `dp[1][0]` (`src/lib/utils/setupTimeOptimizer.ts:74-76`). The DP result is
therefore optimal among those anchored orderings (`HeldKarp.HeldKarpResultIsAnchoredOptimum`),
not among all orderings. `HeldKarp.AnchoringMissesCheaperStart` shows the gap on the matrix
of the unit tests: for `[A, B, C]` the DP returns 45, while `B → A → C` costs 25. The unit test
`src/lib/utils/__tests__/setupTimeOptimizer.test.ts:141-149` expects the DP and an exhaustive
search to agree on exactly this input. In the other direction,
`SetupTimeCalculator.BruteForceNoWorseThanHeldKarp` proves that exhaustive search is never
worse than the anchored DP.

`findOptimalSequence` always enumerates every ordering, and no code chooses between the two
solvers by the number of machines. Neither solver reads or writes `optimalCache`.

## Model

| member | source | states |
|---|---|---|
| `Common.FirstMinIsFirstMinimum` | src/lib/utils/setupTimeOptimizer.ts:120-132 | the scan with a strict `<` finds nothing exactly when no entry is reached; otherwise the chosen entry is a minimum and every earlier reached entry is strictly larger, so ties go to the first |
| `Bitmask.SetBit` | src/lib/utils/setupTimeOptimizer.ts:103 | adding `2^j` to a mask without bit `j` sets bit `j` and keeps every other bit, as the bitwise or with `1 << j` does |
| `Bitmask.ClearBit` | src/lib/utils/setupTimeOptimizer.ts:148 | subtracting `2^j` from a mask with bit `j` clears bit `j` and keeps every other bit, which is `mask ^ (1 << j)` |
| `Bitmask.FullMaskBits` | src/lib/utils/setupTimeOptimizer.ts:121 | `(1 << n) - 1` has exactly the bits `0 .. n-1` |
| `Bitmask.MaskOfBits` | src/lib/utils/setupTimeOptimizer.ts:80 | the mask of a set of distinct indices below `n` lies below `1 << n` and has exactly their bits |
| `SetupMatrix.PathCostIsPairSum` | src/lib/utils/setupTimeOptimizer.ts:178-189 | when the matrix holds every consecutive pair, the cost is the sum of their setup times |
| `SetupMatrix.PathCostFailsAtFirstGap` | src/lib/utils/setupTimeOptimizer.ts:182-184 | the error names the first consecutive pair the matrix lacks |
| `SetupMatrix.PathCostOkIffAllPairsPresent` | src/lib/utils/setupTimeOptimizer.ts:172-189 | a cost is returned exactly when every consecutive pair is in the matrix |
| `SetupMatrix.PathCostOfAppend` | src/lib/utils/setupTimeOptimizer.ts:178-186 | appending a code adds the setup time from the old last code, or fails on that transition |
| `SetupMatrix.TestCacheVectors` | src/lib/utils/__tests__/setupTimeOptimizer.test.ts:16-47 | the unit-test values: `[]` and `[A]` cost 0, `A→B` 10, `A→B→C` 45, `A→C→B→D` 75, and `A→E` fails on that pair |
| `HeldKarp.TableCellOfAddedBit` | src/lib/utils/setupTimeOptimizer.ts:103-115 | the cell `(mask + 2^x, x)` is the best relaxation from the cells of `mask`, the only cells that write it |
| `HeldKarp.EntryHoldsStart` | src/lib/utils/setupTimeOptimizer.ts:74-76 | every reached cell's mask contains the start machine 0 and its own last machine |
| `HeldKarp.RelaxedBound` | src/lib/utils/setupTimeOptimizer.ts:110-115 | after relaxing, a cell is no worse than any predecessor's time plus its transition |
| `HeldKarp.WalkTracesCell` | src/lib/utils/setupTimeOptimizer.ts:138-152 | following the `prev` links from a reached cell gives a path from machine 0 over exactly the cell's mask, ending at the cell's machine, whose cost is the cell's time |
| `HeldKarp.CellBeatsAnchoredPath` | src/lib/utils/setupTimeOptimizer.ts:80-118 | every path from machine 0 without repeats that has a cost reaches the cell of its mask and last machine, with a time no larger than its cost |
| `HeldKarp.AnchoredPathCostDefined` | src/lib/utils/setupTimeOptimizer.ts:98-100 | when no lookup of the fill fails, every anchored path has a cost |
| `HeldKarp.PermutationHasFullMask` | src/lib/utils/setupTimeOptimizer.ts:121 | an ordering of all `n` indices has the full mask |
| `HeldKarp.FullRowReached` | src/lib/utils/setupTimeOptimizer.ts:125-136 | with every lookup present, some cell of the full mask is reached, so the failure branch is dead |
| `HeldKarp.CodesOfRearrangement` | src/lib/utils/setupTimeOptimizer.ts:157 | rearranging the indices rearranges the codes they map to |
| `HeldKarp.PermutationRearrangesCodes` | src/lib/utils/setupTimeOptimizer.ts:157 | the codes of an index permutation are a rearrangement of the input codes |
| `HeldKarp.HeldKarpResultReadsBestCell` | src/lib/utils/setupTimeOptimizer.ts:120-162 | the result's time is the best full-mask cell; its sequence is the walked path mapped to codes, and that sequence costs exactly the time |
| `HeldKarp.OptimalPathIsAnchoredPermutation` | src/lib/utils/setupTimeOptimizer.ts:138-157 | the reconstructed path visits every machine once and starts at machine 0 |
| `HeldKarp.HeldKarpResultBeatsAnchoredPermutations` | src/lib/utils/setupTimeOptimizer.ts:80-136 | no ordering that starts at `equipmentCodes[0]` is cheaper than the result |
| `HeldKarp.HeldKarpResultEndsAtFirstMinimum` | src/lib/utils/setupTimeOptimizer.ts:125-132 | the result ends at the first last machine with the minimum full-mask time |
| `HeldKarp.HeldKarpResultIsAnchoredOptimum` | src/lib/utils/setupTimeOptimizer.ts:55-163 | for two or more machines and a complete matrix, the result is a rearrangement of the codes starting with `equipmentCodes[0]`, its time is its cost, and it is optimal among all orderings with that start |
| `HeldKarp.AnchoredPermutationsOfThree` | src/lib/utils/setupTimeOptimizer.ts:74-76 | with three machines, the anchored orderings are exactly `[0,1,2]` and `[0,2,1]` |
| `HeldKarp.HeldKarpResultOfThree` | src/lib/utils/setupTimeOptimizer.ts:55-163 | with three machines the DP returns the cheaper of the two anchored orderings |
| `HeldKarp.TestCacheCostsOfThree` | src/lib/utils/__tests__/setupTimeOptimizer.test.ts:9-14 | on the test matrix `A→B→C` costs 45, `A→C→B` 50 and `B→A→C` 25 |
| `HeldKarp.AnchoringMissesCheaperStart` | src/lib/utils/__tests__/setupTimeOptimizer.test.ts:141-149 | on `[A, B, C]` and the test matrix the DP returns 45, while the rearrangement `B→A→C` costs 25 |
| `SetupTimeOptimizer.CalculateTotalSetupTimeFromCache` | src/lib/utils/setupTimeOptimizer.ts:168-190 | the loop returns the cost of the sequence, or the error of its first missing transition |
| `SetupTimeOptimizer.InitialTable` | src/lib/utils/setupTimeOptimizer.ts:74-76 | before the fill, only `dp[1][0] = {time: 0, prev: -1}` is set |
| `SetupTimeOptimizer.Successor` | src/lib/utils/setupTimeOptimizer.ts:91-104 | a successor of a reached cell is never machine 0 or the cell's own machine, and its new mask stays below `1 << n` |
| `SetupTimeOptimizer.RelaxSuccessors` | src/lib/utils/setupTimeOptimizer.ts:91-116 | the inner loop relaxes every unvisited successor of one cell, or stops at a missing transition and names it |
| `SetupTimeOptimizer.ExpandMask` | src/lib/utils/setupTimeOptimizer.ts:84-117 | the middle loop relaxes from every reached cell of one mask, or stops at a missing transition and names it |
| `SetupTimeOptimizer.ProbedMeansComplete` | src/lib/utils/setupTimeOptimizer.ts:80-118 | if the fill ends without throwing, every transition between two machines into a machine other than 0 is in the matrix |
| `SetupTimeOptimizer.FillTable` | src/lib/utils/setupTimeOptimizer.ts:69-118 | the fill either leaves every cell equal to its definition and the matrix complete, or throws on a missing transition |
| `SetupTimeOptimizer.BestEnding` | src/lib/utils/setupTimeOptimizer.ts:120-132 | the scan returns `-1` exactly when no full-mask cell is reached; otherwise it returns the first minimum and its time |
| `SetupTimeOptimizer.Reconstruct` | src/lib/utils/setupTimeOptimizer.ts:138-154 | the while loop, once reversed, yields the path the back-pointers define |
| `SetupTimeOptimizer.FindOptimalSequenceDP` | src/lib/utils/setupTimeOptimizer.ts:55-163 | 0 and 1 machines are returned as is with time 0; for two or more, it succeeds exactly when the matrix is complete and then returns the anchored optimum; any error names a missing transition between two machines |
| `Permutations.Permute` | src/lib/utils/setupTimeCalculator.ts:85-101 | the recursive generator returns the list of orderings, head by head |
| `Permutations.PermutationsCount` | src/lib/utils/setupTimeCalculator.ts:85-101 | `permute` returns `n!` lists |
| `Permutations.PermutationsAreRearrangements` | src/lib/utils/setupTimeCalculator.ts:90-97 | every list returned is a rearrangement of the input |
| `Permutations.EveryRearrangementIsGenerated` | src/lib/utils/setupTimeCalculator.ts:85-101 | every rearrangement of the input is among the lists returned |
| `Permutations.FirstPermutationIsInput` | src/lib/utils/setupTimeCalculator.ts:86-97 | the first list returned is the input itself |
| `Permutations.PermsUpToExtends` | src/lib/utils/setupTimeCalculator.ts:90-98 | each pass of the outer loop only appends to `result` |
| `Permutations.HeadThenRest` | src/lib/utils/setupTimeCalculator.ts:90-98 | the orderings headed by `arr[i]` follow those of the earlier heads, in the order of the recursive call |
| `SetupTimeCalculator.PrefixErrorStays` | src/lib/utils/setupTimeCalculator.ts:42-74 | an error on an early transition is the error of the whole sequence |
| `SetupTimeCalculator.CalculateTotalSetupTime` | src/lib/utils/setupTimeCalculator.ts:29-77 | the loop returns 0 for fewer than two codes, otherwise the sum of the transitions; an unknown code fails before a missing matrix row |
| `SetupTimeCalculator.TransitionIsLookup` | src/lib/utils/setupTimeCalculator.ts:47-73 | between known codes, a database transition is the matrix entry of their ids, and a missing row is "setup time not found" |
| `SetupTimeCalculator.DbPathCostIsPathCost` | src/lib/utils/setupTimeCalculator.ts:29-77 | on known codes the database cost equals the in-memory cost of the matrix the database defines |
| `SetupTimeCalculator.CostNeedsKnownCodes` | src/lib/utils/setupTimeCalculator.ts:55-57 | a sequence of two or more codes costs something only if every code names equipment |
| `SetupTimeCalculator.FindOptimalSequence` | src/lib/utils/setupTimeCalculator.ts:114-155 | the search returns the brute-force result: no equipment is an error, failing permutations are skipped, a strictly smaller time replaces the best |
| `SetupTimeCalculator.BruteForceIsOptimal` | src/lib/utils/setupTimeCalculator.ts:114-155 | "no equipment" happens exactly for an empty table; a result is a rearrangement of the codes whose time is its cost and is no worse than any rearrangement that has a cost |
| `SetupTimeCalculator.BruteForcePrefersEarliest` | src/lib/utils/setupTimeCalculator.ts:133-140 | every permutation generated before the chosen one fails or costs strictly more |
| `SetupTimeCalculator.BruteForceFailsIffNothingEvaluates` | src/lib/utils/setupTimeCalculator.ts:141-149 | "failed to find optimal sequence" happens exactly when no rearrangement of the codes has a cost |
| `SetupTimeCalculator.BruteForceNoWorseThanHeldKarp` | src/lib/utils/setupTimeCalculator.ts:114-155 | on a database covering what the DP looks up, exhaustive search succeeds and is never worse than the anchored DP |
| `SetupTimeCalculator.RoundedPercentageBounds` | src/lib/utils/setupTimeCalculator.ts:176-179 | the rounded percentage is not negative, and reaches 100 when the player matches the optimum |
| `SetupTimeCalculator.CalculateScore` | src/lib/utils/setupTimeCalculator.ts:168-180 | a non-positive time scores 0; every score lies in 0..100; matching or beating the optimum scores 100 |
| `SetupTimeCalculator.ScoreIsRoundedPercentage` | src/lib/utils/setupTimeCalculator.ts:176-179 | when the player is not faster than the optimum, the score is a whole number of hundredths within 0.005 of the exact percentage |
| `SetupTimeCalculator.ScoreNonIncreasing` | src/lib/utils/setupTimeCalculator.ts:168-180 | a longer player time never scores higher |
| `SetupTimeCalculator.ScoreExample` | src/lib/utils/setupTimeCalculator.ts:164-166 | 85 minutes against an optimum of 65 scores 76.47 |
| `SetupTimeCalculator.GetRank` | src/lib/utils/setupTimeCalculator.ts:182-214 | S from 100, A in [95, 100), B in [85, 95), C in [75, 85), D below 75, each band exactly |
| `SetupTimeCalculator.RankMonotone` | src/lib/utils/setupTimeCalculator.ts:202-214 | a higher score never earns a worse rank |
| `SetupTimeCalculator.RankExamples` | src/lib/utils/setupTimeCalculator.ts:195-200 | the documented examples 100, 97, 90, 80, 70 give S, A, B, C, D, and each boundary falls on the documented side |
| `SetupTimeCalculator.RankOfScore` | src/lib/utils/setupTimeCalculator.ts:168-214 | matching or beating the optimum ranks S; a non-positive time ranks D |
| `OptimalCache.OptimalCache.constructor` | src/lib/utils/optimalCache.ts:7 | the slot starts empty |
| `OptimalCache.OptimalCache.Get` | src/lib/utils/optimalCache.ts:12-14 | returns the slot and changes nothing |
| `OptimalCache.OptimalCache.Set` | src/lib/utils/optimalCache.ts:19-21 | the slot holds the new result, whatever it held before |
| `OptimalCache.OptimalCache.Clear` | src/lib/utils/optimalCache.ts:26-28 | the slot is empty |
| `OptimalCache.LastWriterWins` | src/lib/utils/optimalCache.ts:7-28 | a fresh cache reads empty; after two writes it reads the second; after a clear it reads empty |
| `Placement.WithoutMembers` | src/store/gameStore.ts:61-62 | the filter keeps exactly the entries of other ids |
| `Placement.WithoutOfConcat` | src/store/gameStore.ts:61-62 | the filter keeps the original order: it distributes over concatenation |
| `Placement.WithoutShortensIffPlaced` | src/hooks/useEquipmentDragDrop.ts:71-84 | the filter shortens the list exactly when some entry has the id |
| `Placement.WithoutKeepsIdsUnique` | src/hooks/useEquipmentDragDrop.ts:78-84 | filtering keeps ids unique |
| `Placement.Renumbered` | src/store/gameStore.ts:63 | the renumbered list has the same cards in the same order, each at the position equal to its index |
| `Placement.RemoveAndRenumber` | src/store/gameStore.ts:59-64 | after removal no entry has the id, every other card remains, positions are indices even if the id was absent, and the list shrinks exactly when the id was present |
| `Placement.RemoveAndRenumberKeepsOrder` | src/hooks/useEquipmentDragDrop.ts:78-84 | removal keeps the survivors in their original order |
| `Placement.RemoveAbsentIsIdentity` | src/hooks/useEquipmentDragDrop.ts:78-84 | on a list numbered by index, removing an absent id changes nothing |
| `Placement.RemoveKeepsIdsUnique` | src/hooks/useEquipmentDragDrop.ts:78-84 | removal keeps ids unique |
| `Placement.AppendFreshKeepsShape` | src/hooks/useEquipmentDragDrop.ts:59-64 | appending a card that is not placed, at position equal to the old length, keeps positions equal to indices and ids unique |
| `GameStore.GameStore.constructor` | src/store/gameStore.ts:32-43 | the store starts idle, with no session, empty lists and zero times |
| `GameStore.GameStore.SetGameState` | src/store/gameStore.ts:45 | only the game state changes |
| `GameStore.GameStore.SetSessionId` | src/store/gameStore.ts:47 | only the session id changes |
| `GameStore.GameStore.SetEquipments` | src/store/gameStore.ts:49 | only the equipment list changes |
| `GameStore.GameStore.SetOptimalData` | src/store/gameStore.ts:51-52 | the optimal time and sequence change together, nothing else |
| `GameStore.GameStore.AddPlacedEquipment` | src/store/gameStore.ts:54-57 | exactly one entry is appended, earlier entries are untouched, and duplicates are not checked |
| `GameStore.GameStore.RemovePlacedEquipment` | src/store/gameStore.ts:59-64 | the placed list becomes the filtered and renumbered list, and nothing else changes |
| `GameStore.GameStore.SetTotalTime` | src/store/gameStore.ts:66 | only the total time changes |
| `GameStore.GameStore.ResetGame` | src/store/gameStore.ts:68 | every field returns to the initial state |
| `EquipmentDragDrop.EquipmentDragDrop.constructor` | src/hooks/useEquipmentDragDrop.ts:23-24 | nothing is placed or dragged |
| `EquipmentDragDrop.EquipmentDragDrop.HandleDragStart` | src/hooks/useEquipmentDragDrop.ts:26-33 | a drag carrying a card makes it active; the list is unchanged |
| `EquipmentDragDrop.EquipmentDragDrop.HandleDragEnd` | src/hooks/useEquipmentDragDrop.ts:35-65 | the active card is cleared. With no target, no card or an already placed card, the list is unchanged; otherwise the card is appended at position equal to the old length. Positions stay equal to indices and ids stay unique |
| `EquipmentDragDrop.EquipmentDragDrop.HandleDragCancel` | src/hooks/useEquipmentDragDrop.ts:67-69 | only the active card is cleared |
| `EquipmentDragDrop.EquipmentDragDrop.IsEquipmentPlaced` | src/hooks/useEquipmentDragDrop.ts:71-76 | true exactly when some entry has the id, which is exactly when removing it would shorten the list |
| `EquipmentDragDrop.EquipmentDragDrop.RemoveEquipment` | src/hooks/useEquipmentDragDrop.ts:78-84 | the list becomes the filtered and renumbered list, the invariant holds, and the active card is untouched |
| `EquipmentDragDrop.EquipmentDragDrop.ResetPlacement` | src/hooks/useEquipmentDragDrop.ts:86-89 | nothing is placed or dragged |
| `EquipmentDragDrop.EquipmentDragDrop.GetNextPosition` | src/hooks/useEquipmentDragDrop.ts:91-93 | the list length, a position no entry holds |
| `Timer.JsRem` | src/components/game/Timer.tsx:28 | the remainder has the sign of the dividend, equals the mathematical remainder for non-negative dividends, and in both cases dividend = truncated quotient · divisor + remainder |
| `Timer.NatToString` | src/components/game/Timer.tsx:30 | `String(n)` is at least one digit, all digits, one digit exactly below 10, and has no leading zero from 10 up |
| `Timer.PadStart` | src/components/game/Timer.tsx:30 | the padded string is as long as the larger of `s` and the width, ends with `s`, and is padded with the fill character |
| `Timer.NatToStringRoundTrip` | src/components/game/Timer.tsx:30 | reading the printed digits back gives the number |
| `Timer.IntToStringRoundTrip` | src/components/game/Timer.tsx:30 | `String(i)` starts with a minus sign exactly when `i` is negative, and its digits read back as `i`, or as −`i` after the sign |
| `Timer.FieldRoundTrip` | src/components/game/Timer.tsx:30 | a zero-padded field reads back as its number, and a number below 100 fills exactly two characters |
| `Timer.FieldOfNat` | src/components/game/Timer.tsx:30 | the field of a natural number is all digits, at least two of them, and exactly two below 100 |
| `Timer.ClockShape` | src/components/game/Timer.tsx:30 | two fields around a colon are at least five characters, and are digits with the colon three from the end when the minutes are not negative and the seconds lie in 0..59 |
| `Timer.FormatTimeFields` | src/components/game/Timer.tsx:26-28 | for a non-negative time, minutes are non-negative, seconds lie in 0..59, and minutes · 60 + seconds is the whole seconds elapsed |
| `Timer.FormatTime` | src/components/game/Timer.tsx:25-31 | the display is at least five characters long for every time, negative ones included |
| `Timer.FormatTimeShape` | src/components/game/Timer.tsx:25-31 | for a non-negative time the display is digits, one colon three characters from the end, then two digits |
| `Timer.ClockReadsBack` | src/components/game/Timer.tsx:30 | two fields joined by a colon, seconds below 60, put the colon three characters from the end; the part before it reads back as the minutes, the two characters after it as the seconds, and the whole as minutes · 60 + seconds |
| `Timer.FormatTimeReadsBack` | src/components/game/Timer.tsx:25-31 | for a non-negative time the part before the colon reads back as the whole minutes, the two characters after it as the remaining seconds, below 60, and the display as the whole seconds elapsed |
| `Timer.UnderASecondShowsZero` | src/components/game/Timer.tsx:25-31 | any time under a second shows `00:00` |
| `Timer.SixtyOneSecondsExample` | src/components/game/Timer.tsx:25-31 | 61 seconds shows `01:01` |
| `Timer.HundredField` | src/components/game/Timer.tsx:30 | a three-digit number is not padded: 100 prints as `100` |
| `Timer.HundredMinutesExample` | src/components/game/Timer.tsx:25-31 | minutes are not capped at 59: 100 minutes shows `100:00` |
| `Timer.FormatTimeOfNegative` | src/components/game/Timer.tsx:26-30 | a negative time keeps JavaScript's signed remainder: −1000 ms shows `-1:-1` |

## Left out

- `SetupTimeOptimizer.FindOptimalSequenceDP`: an error is proved to name a missing transition between two machines into a machine other than 0, not necessarily the first one the loops reach.
- `HeldKarp.HeldKarpResultIsAnchoredOptimum`: optimality is proved only among orderings that start at `equipmentCodes[0]`, because that is all the code searches; see `HeldKarp.AnchoringMissesCheaperStart`.
- 32-bit shifts: `1 << n` wraps for `n >= 31` in JavaScript. Masks are unbounded natural numbers here, so tables for 31 or more machines are not modelled as the program would run them.
- The DP table is a dense `Pow2(n) × n` array with an `Empty` cell where the program's sparse object has no key. The `if (!dp[mask]) continue` test is therefore not a separate branch; it skips only masks whose cells the inner checks would skip anyway.
- Times in the solvers are natural numbers of minutes, and the score is computed over the reals. IEEE-754 rounding of `optimalTime / userTime * 100` and of `Math.round` is not modelled; `Math.round` is `floor(x + 0.5)`.
- `null`/`undefined` sequences (`!sequence` in both cost functions) are not modelled; a sequence is a list.
- `calculateTotalSetupTime` and `findOptimalSequence`: the Prisma queries are replaced by a `Database` value holding the equipment map (code → id) and the setup matrix ((from id, to id) → minutes). `findOptimalSequence` takes the codes of `findMany({orderBy: {code: 'asc'}})` as a parameter. Asynchrony and the `console.error` log of skipped permutations are left out.
- `EquipmentDragDrop.EquipmentDragDrop.HandleDragEnd`: the hook reads `placedEquipment` from its closure but appends to the latest state. The model treats both as the same list, so a stale closure between two renders is not modelled.
- The drag event of dnd-kit is reduced to whether it ended over a target and the equipment it carries.
- `GameStore.GameStore`: times are integers, and zustand's subscription and re-render machinery is not modelled.
- `Timer`: only `formatTime` is modelled. The `setInterval` update and `Date.now` belong to the component, and milliseconds are integers.
- The rest of the repository (pages, API routes, other components, the seed script, ranking queries) is not part of this model.
