# Game of Life engine, modelled in Dafny

This project models the engine behind a browser Game of Life: the `GameOfLife`
class and the array-copy helper it uses when the board is resized. The engine
owns an N by N board of 0/1 cells on a bounded grid with no wrap-around. It
also keeps a generation counter, a "starting board" snapshot taken after every
deliberate edit, and an optional update listener.

Each mutator of the class is a pure function from one state record to the
next. The record is `Life.Game(size, board, generations, starting, listening)`.
Every operation requires `Life.Valid`, the class invariant: the board and the
snapshot are both `size` by `size` grids of 0/1 cells, and the size is a length
`new Array` accepts. The fields are private and only the modelled operations
write them, so every state reachable without a thrown error meets it.

Modules:

- `Wrappers`: a `Result` type. It carries the one error modelled:
  `new Array(size)` throws a RangeError when the size is not an array length:
  negative, or 2^32 or more.
- `Grid`: boards as `seq<seq<int>>`, with their shape predicates, the empty
  board and the single-cell update.
- `ArrayCopy`: `copy2DArrayElements`. Its two loops are tail-recursive
  functions, and the truthiness test is modelled as "non-zero".
- `Life`: the class. This covers construction, listeners, the queries, the cell
  edits, random fill, clear, resize, the neighbour count (both as a loop method
  and as a function), one generation, and reset.
- `LifeRules`: properties of one generation. The loop count is shown to equal
  the number of live cells in the bounded Moore neighbourhood. Known patterns
  are proved: an isolated cell dies, the blinker has period two, the block is
  a still life, and the empty board is a fixed point. The lemmas also show when
  the starting-board flag survives a step.
- `Trace`: runs of public calls. Across a run, the class invariant holds, the
  counter moves only by steps, and only deliberate edits change the snapshot.

In these places the model follows the code as written:

- A size of 0 is accepted, which gives an empty 0 by 0 board. A size fails
  exactly when `new Array` rejects it: negative, or 2^32 or more.
- `updateBoardSize` leaves the generation counter unchanged. Every other
  deliberate edit resets it.
- The resize copy skips falsy (zero) source cells, exactly as written.
  `ArrayCopy.CopyIntoAllDead` shows that this makes no difference here: the
  destination is always a fresh all-zero board, so the result equals the
  unconditional in-bounds copy. `ArrayCopy.FalsySourceCellIsNotCopied` shows
  that the skip is visible when the destination is not all zero.

## Model

| member | source | states |
|---|---|---|
| Life.CreateEmptyBoard | src/utils/game/index.ts:59-63 | fails exactly for a size that is negative or at least 2^32; otherwise gives a size by size board of zeros |
| Life.New | src/utils/game/index.ts:15-20 | fails exactly for a size that is negative or at least 2^32; otherwise the state is valid and has the given size, generation 0 and no listener; it is empty and is its own starting board |
| Life.IsValidIndex | src/utils/game/index.ts:65-67 | on a valid state, an index is valid exactly when both coordinates lie in [0, size) |
| Life.ResetGenerations | src/utils/game/index.ts:79-82 | the counter becomes 0 and nothing else changes |
| Life.SetStartingBoard | src/utils/game/index.ts:75-77 | afterwards isStartingBoard holds, the board is unchanged, and the state is valid when the board is well formed |
| Life.AddBoardUpdateListener | src/utils/game/index.ts:22-24 | a listener is registered; size, board, counter and snapshot are unchanged |
| Life.RemoveListeners | src/utils/game/index.ts:26-28 | no listener remains; size, board, counter and snapshot are unchanged |
| Life.IsEmptyIff | src/utils/game/index.ts:38-40 | on a valid state, isEmpty holds exactly when the board is the all-zero board of the engine's size |
| Life.IsStartingBoardIff | src/utils/game/index.ts:42-46 | on a valid state, isStartingBoard holds exactly when the board equals the snapshot |
| Life.SetCellAlive | src/utils/game/index.ts:84-91 | same size, still valid, generation 0, snapshot equals the new board; no cell other than (x, y) changes; an out-of-range (x, y) leaves the board unchanged; an in-range (x, y) becomes 1 |
| Life.SetCellDead | src/utils/game/index.ts:93-100 | as for setCellAlive, except that an in-range (x, y) becomes 0 |
| Life.ToggleCell | src/utils/game/index.ts:102-109 | as for setCellAlive, except that an in-range (x, y) becomes 1 minus its old value |
| Life.ToggleTwice | src/utils/game/index.ts:105 | toggling the same cell twice gives back the original board, for any coordinates |
| Life.FillRandom | src/utils/game/index.ts:111-126 | the result is valid with generation 0 and snapshot equal to the board; cell (x, y) is 1 exactly when its random draw succeeded |
| Life.FillRandomReachesEveryBoard | src/utils/game/index.ts:115-122 | every 0/1 board of the engine's size is the outcome of some set of draws, whatever the board was before |
| Life.Clear | src/utils/game/index.ts:128-133 | the result is valid, has the same size, is empty, is at generation 0, and is its own starting board |
| Life.UpdateBoardSize | src/utils/game/index.ts:48-57 | fails exactly for a size that is negative or at least 2^32; otherwise the board is n by n, equals the old board on the overlap [0, min(old, n)) squared and is 0 elsewhere; the counter is unchanged and the board is its own starting board |
| Life.GetAliveNeighbors | src/utils/game/index.ts:135-149 | the two nested loops over -1..1 that skip (0, 0) compute the neighbour count used by the rule |
| Life.NextCell | src/utils/game/index.ts:156-166 | the successor of a cell is 0 or 1, and it is 1 exactly when the cell is 1 with 2 or 3 live neighbours, or is not 1 and has exactly 3 |
| Life.NextBoard | src/utils/game/index.ts:152-168 | the successor board has the same size with 0/1 cells, and each cell follows the rule above for the neighbour count on the old board |
| Life.NextGeneration | src/utils/game/index.ts:151-172 | the counter goes up by exactly 1; size and snapshot are unchanged and the result stays valid; a cell is 1 next exactly when it is 1 with 2 or 3 live neighbours, or 0 with exactly 3 |
| Life.ResetBoard | src/utils/game/index.ts:174-178 | the board becomes the snapshot and the counter 0; the snapshot is unchanged and the result is its own starting board |
| Life.ResetBoardIdempotent | src/utils/game/index.ts:174-178 | resetting twice gives the same state as resetting once |
| LifeRules.AliveNeighborsIsMooreCount | src/utils/game/index.ts:135-149 | the count equals the number of in-bounds live cells among the eight Moore neighbours, so it is at most 8 |
| LifeRules.EmptyStaysEmpty | src/utils/game/index.ts:151-172 | an empty board stays empty and unchanged after a step |
| LifeRules.IsolatedCellDies | src/utils/game/index.ts:156-166 | a board of any size whose only live cell is (a, c) is empty after one step |
| LifeRules.HorizontalTurns | src/utils/game/index.ts:151-172 | on a 3 by 3 board, the line (1,0), (1,1), (1,2) steps to (0,1), (1,1), (2,1) |
| LifeRules.Blinker | src/utils/game/index.ts:151-172 | the blinker steps to its vertical form and then back, and a blinker that was the starting board is no longer the starting board after one step |
| LifeRules.BlockIsStill | src/utils/game/index.ts:156-161 | a full 2 by 2 board is unchanged by a step and stays the starting board |
| LifeRules.StepKeepsStartingBoardIffStable | src/utils/game/index.ts:169-170 | from the starting board, isStartingBoard still holds after a step exactly when the successor board equals the board |
| ArrayCopy.CopyRow | src/utils/array.ts:5-13 | from column y on, each truthy source cell inside the destination row is copied; all other cells of the row are kept |
| ArrayCopy.CopyRows | src/utils/array.ts:2-14 | from row x on, exactly the truthy source cells inside the overlap are copied; every other cell and the shape are kept |
| ArrayCopy.Copy2DArrayElements | src/utils/array.ts:1-15 | the destination's shape is kept; cells outside the overlap and cells whose source value is 0 keep their old value; truthy overlap cells take the source value |
| ArrayCopy.CopyIntoAllDead | src/utils/array.ts:8-11 | into an all-zero destination, the copy equals the unconditional in-bounds copy |
| ArrayCopy.FalsySourceCellIsNotCopied | src/utils/array.ts:9-11 | a 0 in the source does not overwrite a 1 in the destination |
| Trace.Apply | src/utils/game/index.ts:84-178 | a call fails exactly when it resizes to a size that is negative or at least 2^32; every successful call keeps the class invariant |
| Trace.Run | src/utils/game/index.ts:7-11 | every state reached by a run of calls keeps the class invariant |
| Trace.GenerationsCountSteps | src/utils/game/index.ts:169 | in a run with no call that resets the counter, the counter grows by exactly the number of steps |
| Trace.SnapshotOnlyOnEdits | src/utils/game/index.ts:75-77 | in a run with no edit, fill, clear or resize, the snapshot never changes |
| Trace.StartingBoardAfterEdit | src/utils/game/index.ts:75-77 | right after an edit, fill, clear or resize ends a run, isStartingBoard holds |

## Left out

- Listener delivery and `throttle` are not modelled. Both depend on timers and
  the clock. Notifying is a no-op; only whether a listener is registered is
  kept.
- Life.FillRandom: states only the shape, counter and snapshot properties and
  the per-cell outcome. The density draw `randomInt(0, 60) / 100` and the
  per-cell `Math.random()` draws become one oracle parameter. The random
  module is not part of this model, and the probability distribution is not
  stated.
- Coordinates and sizes are integers. JavaScript numbers can be fractional:
  a fractional x passes `isValidIndex` and then throws on the missing row; an
  integer x with a fractional y writes a non-index property of the row and
  changes no cell. Neither case is modelled.
- Other exceptions are not modelled: the TypeError of a fractional x, and an
  exception thrown by a listener, which comes back out of the mutator.
- Life.UpdateBoardSize: on a rejected size the source has already assigned
  `_size` when `new Array` throws. The model returns only the error, not that
  half-updated object.
- The memory a large board needs is not modelled: every size up to 2^32 - 1
  succeeds.
- Counters are unbounded naturals. The precision limit of JavaScript numbers
  above 2^53 is not modelled.
- ArrayCopy.Copy2DArrayElements: modelled on number cells, where the only
  falsy value is 0 (NaN is not modelled). Missing or non-array rows, which the
  source tests for, cannot occur in a sequence of sequences.
- That the copy never modifies its source array holds by construction, because
  Dafny sequences are values. No member states it.
- The `board` getter hands out the live array, so a caller could write cells
  behind the engine's back; the model assumes only the engine's operations
  change the board. `structuredClone` deep-copies the snapshot; sequences are
  values, so that aliasing cannot arise.
- `isStartingBoard` would throw if the snapshot had fewer rows than the board.
  `Life.Valid` rules that out, so the query is modelled on valid states only.
- Canvas rendering, mouse-to-cell mapping and the React components are
  presentation code outside the engine.
