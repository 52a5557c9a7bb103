# Minesweeper rules engine in Dafny

This project models the rules engine of a Minesweeper game: the class
`GamePlay` of `src/composables/logic.ts`. It proves properties of that model.

The engine owns a `height` x `width` board of blocks, indexed `[y][x]`. Each
block records its own `x` and `y`, its `adjacentMines` count, and whether it
is `revealed`, a `mine` and `flagged`. The engine also holds the game
`status` (play, win or lost) and `mineGenerated`, which says whether the
mines have been laid. The operations are:

- `reset` builds a fresh board;
- the first left click calls `generateMines` (with `placeRandom`) and `updateNumbers`;
- `expendZero` is the recursive flood reveal;
- `onClick` reveals a block and `onRightClick` toggles a flag;
- `autoExpand` is the double-click chord;
- `checkGameState`, `onGameOver` and `showAllMines` end the game.

Two modules:

- `grid.dfy`, module `Grid`, holds the values and the pure logic:
  - the `Cell` datatype and the eight `Directions`;
  - `Siblings`, the counting functions and the whole-board predicates;
  - the flood-fill cascade and the lemmas used by the methods.
- `logic.dfy`, module `Logic`, holds class `GamePlay`:
  - the board is a `seq<seq<Cell>>` field that each operation replaces;
  - every operation that changes the engine is a method with a `modifies`
    clause, and `AddMines`, which only computes a count, changes nothing;
  - the loops of the source are `while` loops with invariants.

A `BlockState` object reference becomes the block's coordinates. An update
`block.f = v` becomes a write-back of the block's new value into the board.

`Valid()` is the invariant that the public operations `Reset`, `OnClick`,
`OnRightClick`, `AutoExpand`, `CheckGameState` and `OnGameOver` keep.
`OnGameOver` also restores it from any board whose counts are right. The
internal steps `GenerateMines`, `UpdateNumbers`, `ExpendZero` and
`ShowAllMines` only keep the parts of it they need. `Valid()` says:

- the board has the configured size and every block knows its position;
- before the first click there are no mines and every count is 0;
- after the first click every count is exactly the number of mines among
  the block's siblings, and a mine's count is 0;
- a lost game shows every mine.

Randomness is a parameter. `placeRandom` takes the drawn coordinate as
input, and `generateMines` takes the whole finite sequence of draws
(`candidates`).

The model follows the code as written, including behaviour an idealised
Minesweeper would not have:

- `onClick` does not check whether the block is already revealed.
- `onClick` never calls `checkGameState`.
- `autoExpand` and `checkGameState` do not check the status, so a lost game
  can become a won one.
- The win test counts a flagged block as cleared even when it is not a mine.
  `Grid.ClearedWithWrongFlag` exhibits such a board.
- Both branches of the inner test of `checkGameState` declare a win.
- A mine keeps the count 0. When `autoExpand` reveals a mine, `expendZero`
  therefore floods from it before the game is lost.
- `autoExpand` on a board without mines can reveal blocks. A later first
  click may then lay a mine under a revealed block, because `generateMines`
  does not look at `revealed`. For this reason `Valid()` contains no "no
  mine is shown while playing" clause. Instead, `OnClick` and `AutoExpand`
  state that the blocks they reveal from a safe block are safe
  (`SafeReveals`).

## Model

| member | source | states |
|---|---|---|
| Grid.Siblings | src/composables/logic.ts:164-173 | The result holds exactly the in-bounds positions adjacent to c (both directions of the membership). It never contains c, has no duplicates and has at most 8 entries. |
| Grid.Directions | src/composables/logic.ts:4-13 | The eight (dx, dy) offsets of the table, in the table's order. `DirectionsUnit` and `UnitInDirections` prove they are exactly the eight non-zero unit offsets. |
| Grid.Offsets | src/composables/logic.ts:165-172 | The positions c shifted by each offset, keeping only those inside the board, in table order. There are at most as many as there are offsets, and all are in bounds. |
| Grid.SiblingsComplete | src/composables/logic.ts:4-13 | Every in-bounds position one step away from c, in any of the eight directions, is among the offsets produced from the `directions` table. |
| Grid.SiblingsSound | src/composables/logic.ts:4-13 | The offsets produced from the `directions` table are distinct, at most 8, in bounds and adjacent to c. |
| Grid.DirectionsUnit | src/composables/logic.ts:4-13 | The table has distinct entries, all non-zero offsets of at most one step on each axis. |
| Grid.UnitInDirections | src/composables/logic.ts:4-13 | Every non-zero offset of at most one step on each axis is in the table, so the table is exactly the eight such offsets. |
| Grid.FreshBoard | src/composables/logic.ts:49-59 | The new board has `height` rows of `width` blocks. Block `[y][x]` knows it is at (x, y), has count 0, no mine, no flag and is not revealed. |
| Logic.GamePlay.Reset | src/composables/logic.ts:41-61 | Afterwards the sizes are the given ones, the board is the fresh board, the status is play, `mineGenerated` is false and `Valid()` holds. |
| Logic.GamePlay.constructor | src/composables/logic.ts:29-31 | Same state as after `Reset` with the given sizes. |
| Grid.Eligible | src/composables/logic.ts:80-90 | The candidates `placeRandom` accepts: on the board, outside the 3x3 square around the first click, and not already a mine. None of them is a mine yet, and each is a candidate outside that square. |
| Logic.GamePlay.PlaceRandom | src/composables/logic.ts:74-94 | The draw is always recorded. A mine is placed exactly when the draw is new, lies outside the 3x3 square around the first click and is not already a mine. Then exactly that block gains `mine`; otherwise the board is unchanged. |
| Grid.SampleStep | src/composables/logic.ts:80-93 | One draw keeps the sampling invariant: the recorded draws are the candidates seen, and the mines added are exactly the eligible candidates seen. A successful draw adds a coordinate not added before, so the mine count grows by exactly one. |
| Logic.GamePlay.Draw | src/composables/logic.ts:102 | One `placeRandom` call on the next candidate extends the sampling invariant by that candidate. The added set grows by exactly that candidate when a mine is placed, and is unchanged otherwise. |
| Logic.GamePlay.DrawUntilPlaced | src/composables/logic.ts:100-102 | Candidates are drawn until one is placed or the candidates run out. The sampling invariant holds over every candidate drawn, and exactly one mine is added when one is placed. A placement ends the loop: every draw before the last placed nothing. |
| Logic.GamePlay.PlaceMines | src/composables/logic.ts:98-103 | Only `mine` changes. The new mines are exactly the eligible candidates (outside the first click's 3x3 square, not yet a mine) among some prefix of the draws, so they are the first eligible candidates drawn, at most `mines` of them. Fewer are placed only when every eligible candidate became a mine. |
| Logic.GamePlay.GenerateMines | src/composables/logic.ts:72-106 | PlaceMines' guarantees hold: the new mines are exactly the eligible candidates among some prefix of the draws. Exactly `mines` mines are added when there are enough eligible candidates. Only `mine` and `adjacentMines` change. Every non-mine block's count grows by the number of mines around it, and a mine's count is unchanged. |
| Grid.FirstClickSafe | src/composables/logic.ts:87-88 | When mines are added only at eligible candidates of a board without mines, no block of the 3x3 square around the first click is a mine. |
| Logic.GamePlay.AddMines | src/composables/logic.ts:114-117 | The inner loop adds to the block's count the number of the given siblings that are mines. |
| Grid.NumberedCount | src/composables/logic.ts:110-117 | The numbered value of a block keeps everything but the count. A mine is unchanged. A non-mine's count grows by the number of its siblings that are mines. |
| Grid.Numbered | src/composables/logic.ts:110-117 | The value `updateNumbers` gives one block: a mine is left alone, any other block's count grows by the mines around it. Only the count changes, and it never decreases. |
| Logic.GamePlay.NumberBlock | src/composables/logic.ts:110-117 | The block at c takes its numbered value; every other block is unchanged. |
| Logic.GamePlay.UpdateNumbers | src/composables/logic.ts:108-120 | Every block of the board takes its numbered value, computed from the board before the call. |
| Grid.NumberedOver | src/composables/logic.ts:105-120 | Numbering after placing mines keeps the mines. Each count grows by the exact number of mines around the block (0 for a mine), and nothing else changes. |
| Grid.NeighbourMineCount | src/composables/logic.ts:114-117 | Counting the mines over `Siblings` gives the size of the set of mines among the up to eight surrounding positions. |
| Grid.CountWhere | src/composables/logic.ts:199-201 | The number of positions of the list whose block has the property (flagged, or neither revealed nor flagged; the mine count of `updateNumbers` at 114-117 is the same counter). It is at most the list's length. `CountIsCardinality` ties it to the size of the matching set. |
| Grid.CountIsCardinality | src/composables/logic.ts:114-117 | Over distinct positions, the count of blocks with a property equals the size of the set of those positions. |
| Grid.GeneratedExact | src/composables/logic.ts:55 | Counts laid on a board whose counts all start at 0 are exact. |
| Grid.ExactIsSafe | src/composables/logic.ts:124-125 | With exact counts (or no mines at all), a non-mine block whose count is 0 has no mine among its siblings. |
| Logic.GamePlay.ExpendZero | src/composables/logic.ts:122-133 | The call terminates because the set of hidden blocks shrinks. It changes only `revealed`, and only from false to true. A non-zero start changes nothing. A zero start ends with all its siblings revealed, and every newly revealed zero has all its siblings revealed. Every newly revealed block is in the returned cascade order, and each entry of that order is a sibling of an earlier zero. |
| Logic.GamePlay.RevealSibling | src/composables/logic.ts:127-131 | A hidden sibling is revealed and flooded from; a revealed one is left alone. The flood invariants are extended. |
| Grid.FloodStep | src/composables/logic.ts:127-131 | Revealing a hidden sibling of a zero and flooding from it keeps the invariants: reveal-only, every new zero closed, and every new block traced. |
| Grid.CascadeAppend | src/composables/logic.ts:127-131 | A cascade from a sibling, appended after it, extends the cascade from the start. |
| Grid.RevealShrinks | src/composables/logic.ts:128-130 | Revealing a hidden block strictly shrinks the set of hidden blocks. This is the termination measure of `expendZero`. |
| Grid.CascadeWithin | src/composables/logic.ts:122-133 | A cascade never leaves a region that holds its start and, with each block of count 0 in it, all that block's neighbours. This bounds what a flood reveals: it stops at the blocks with a nonzero count. |
| Grid.CascadeMineFree | src/composables/logic.ts:122-133 | When the counts are exact, a cascade that starts at a non-mine reaches no mine. |
| Logic.GamePlay.OpenRegion | src/composables/logic.ts:160 | `expendZero` keeps `Valid`'s count invariant. It reveals exactly the blocks of the returned order, each a sibling of the start or of an earlier block of count 0. From a non-mine block it reveals no mine. |
| Logic.GamePlay.RevealBlock | src/composables/logic.ts:152 | `block.revealed = true` changes exactly that block's `revealed`. It keeps the counts, and reveals no mine when the block is safe. |
| Logic.GamePlay.RevealAndOpen | src/composables/logic.ts:152-160 | Revealing a block and flooding from it changes only `revealed` and leaves no newly revealed zero with a hidden sibling. Apart from the block itself, it reveals exactly the blocks of the returned cascade order. Starting from a safe block it reveals no mine. |
| Logic.GamePlay.ShowAllMines | src/composables/logic.ts:175-180 | The new board is the old one with every mine revealed and nothing else changed. |
| Grid.Exposed | src/composables/logic.ts:175-180 | Exposing keeps everything but `revealed` and shows every mine. A block is revealed afterwards exactly when it was revealed or is a mine. |
| Logic.GamePlay.OnGameOver | src/composables/logic.ts:224-239 | The status becomes the given one. A lost game shows all mines, and any other status leaves the board unchanged. When the counts were right before, `Valid` holds afterwards. |
| Logic.GamePlay.Lose | src/composables/logic.ts:224-233 | `onGameOver('lost')` sets the status to lost, shows all mines and restores `Valid`. |
| Logic.GamePlay.OnRightClick | src/composables/logic.ts:135-141 | Outside play, or on a revealed block, nothing changes. Otherwise exactly the block's flag is toggled. `Valid` is kept. |
| Grid.FlipTwice | src/composables/logic.ts:140 | Toggling the same flag twice restores the board. |
| Grid.Flip | src/composables/logic.ts:140 | Only the flag of the block at c changes, and it is negated. |
| Logic.GamePlay.OnClick | src/composables/logic.ts:143-161 | Outside play nothing changes. Otherwise mines exist afterwards. Laying the mines changes only `mine` and `adjacentMines`, so flags and reveals survive the first click. On the first click the mines laid are exactly the eligible candidates (away from c) among some prefix of the draws, the counts are exact and the game goes on. The game is lost exactly when c is a mine, and then the board is the exposed board with c revealed. Otherwise the status stays play, c is revealed and flooded from, exactly the blocks of the returned cascade order are revealed besides c, and no mine is revealed. `Valid` is kept. |
| Logic.GamePlay.LayMines | src/composables/logic.ts:147-150 | The first click lays as mines exactly the eligible candidates among some prefix of the draws, with exact counts, sets `mineGenerated`, and c itself is not a mine. Only `mine` and `adjacentMines` change. |
| Logic.GamePlay.Open | src/composables/logic.ts:152-160 | After mines exist: the game is lost exactly when c is a mine, and a lost game shows every mine. Otherwise the click floods from c, reveals besides c exactly the blocks of the returned cascade order, and reveals no mine. |
| Logic.GamePlay.Explode | src/composables/logic.ts:154-157 | Clicking a mine reveals it, sets the status to lost and shows every mine, without a flood. |
| Logic.GamePlay.CheckGameState | src/composables/logic.ts:182-193 | The board is unchanged. The status becomes win exactly when mines exist and every block is revealed, flagged or a mine; otherwise it is unchanged. `Valid` is kept. |
| Grid.AllCleared | src/composables/logic.ts:187 | The win test: every block is revealed, flagged or a mine. |
| Grid.Misflagged | src/composables/logic.ts:188 | The inner test: some flagged block is not a mine. |
| Grid.ClearedRevealsSafe | src/composables/logic.ts:187 | On a cleared board with no wrong flag, every safe block is revealed. |
| Grid.ClearedWithWrongFlag | src/composables/logic.ts:187-189 | A one-block board whose only block is safe, flagged and hidden passes the win test and has a wrong flag. |
| Logic.GamePlay.AutoExpand | src/composables/logic.ts:196-222 | Only `revealed` and `flagged` change, and only from false to true. When the flags around c match its count, every sibling neither revealed nor flagged gets revealed and flags stay. The game is lost exactly when one of those was a mine; otherwise the new reveals are safe and no new zero is left with a hidden sibling. Every newly revealed block is a covered sibling, lies on a cascade from one through blocks of count 0, or is a mine shown because the game is lost. The returned board of floods is what the reveals and floods leave before any mine is shown: it changes only `revealed`, leaves no new zero with a hidden sibling, has every sibling revealed or flagged (or a mine shown by the loss), and the final board is it with the mines shown when the game is lost. A loss caused here comes from a covered mine that was revealed and flooded from, so the later siblings and the floods from a mine are all accounted for. When they do not match, nothing is revealed and the status stays. Every unrevealed sibling becomes flagged exactly when the covered siblings equal the count minus the flags. |
| Logic.GamePlay.ChordAll | src/composables/logic.ts:204-211 | Over all siblings: they end revealed or flagged, and only reveals happen. The status becomes lost exactly when some sibling was a covered mine. Otherwise the reveals are safe and closed. Every newly revealed block is a covered sibling, lies on a cascade from one, or is a mine shown because the game is lost. Lost or not, the returned board of floods changes only `revealed`, leaves no new zero with a hidden sibling, reveals or shows every sibling not flagged, and gives the final board once the mines are shown; a loss of this loop reveals a covered mine in it. |
| Logic.GamePlay.ChordReveal | src/composables/logic.ts:205-210 | A revealed or flagged sibling is skipped: the board is unchanged and so is the status. Otherwise it is revealed and flooded from, and the flood reveals exactly the returned cascade order (a mine has count 0, so the flood spreads from a mine too). The game is lost exactly when the sibling is a mine, and then the flooded board is exposed. |
| Grid.OpenedStep | src/composables/logic.ts:204-211 | One step of the reveal loop keeps the bound: every block revealed so far is a covered sibling already visited, lies on a cascade from one, or is a mine shown after a loss. |
| Logic.GamePlay.ChordNext | src/composables/logic.ts:205-210 | One turn of the reveal loop on the next sibling extends the loop's summary from the siblings visited so far to one more, and keeps `Valid`. |
| Grid.ChordOutcomeStep | src/composables/logic.ts:204-211 | One turn of the reveal loop extends its summary: the status becomes lost exactly when it was lost already or the visited siblings held a covered mine, and the summary below holds one sibling further. |
| Grid.ChordedStart | src/composables/logic.ts:203-204 | Before the loop nothing is revealed, and a game already lost already shows its mines, so the summary holds for no siblings with the board itself as the board of floods. |
| Grid.FloodedStep | src/composables/logic.ts:205-210 | One turn extends the board of floods: a skipped sibling keeps it; a flood while playing becomes it; a flood after the loss is merged into it. It stays closed and reveal-only, covers the new sibling, and showing the mines on it gives the board after the turn. |
| Grid.FloodedExtend | src/composables/logic.ts:204-211 | A board of floods that extends the previous one, stays closed, gives the new board and covers the next sibling extends the loop summary by that sibling, including the sibling that caused the loss. |
| Grid.MergeClosed | src/composables/logic.ts:122-133 | After the loss every mine shows, so a still-covered sibling is safe, and the flood from it merged into the board of floods leaves no newly revealed zero with a hidden sibling. |
| Grid.MergeExposed | src/composables/logic.ts:175-180 | Merging a turn's floods into the board of floods only adds reveals, and showing the mines on the merged board gives the board the turn left. |
| Grid.ExposedShown | src/composables/logic.ts:175-180 | Showing the mines on a board that already shows every mine changes nothing. |
| Grid.ChordedStep | src/composables/logic.ts:204-211 | One step of the reveal loop extends its summary: only reveals, each visited sibling revealed or flagged, lost exactly when it was lost already or a visited sibling was a covered mine, safe and closed reveals while not lost, the bound on what is revealed, and the board of floods before the mines are shown. |
| Grid.FlaggedOver | src/composables/logic.ts:216-221 | The effect of the flag loop: the board keeps its shape, and each block gains a flag exactly when it is in the list and not revealed; nothing else changes. |
| Logic.GamePlay.FlagAll | src/composables/logic.ts:216-221 | The new board is the old one with every unrevealed sibling flagged, and `Valid` is kept. When every sibling is already revealed or flagged, nothing changes. |
| Grid.FlaggedNone | src/composables/logic.ts:216-221 | Flagging over siblings that are all revealed or flagged leaves the board as it was. |
| Grid.ChordSafe | src/composables/logic.ts:203-210 | With exact counts and only right flags, when the flags around a safe block match its count, no covered sibling is a mine. So the reveal branch then cannot lose. |
| Grid.AutoFlagSound | src/composables/logic.ts:214-220 | With exact counts, right flags and no mine shown, when the covered siblings equal the count minus the flags, every covered sibling is a mine. So the flag branch then flags only mines. |

## Left out

- Vue reactivity is not modelled: the `ref` wrappers, the `state.value` indirection, and the unused `mineGenerated`/`gameState` fields of the class. The state is plain fields.
- `startMS` and `endMS` are not modelled, because clocks are I/O.
- The `alert` calls and the delayed `setTimeout` notification of `onGameOver` are not modelled, because they are user-interface side effects.
- `random` and `randomInt` are replaced by the caller-supplied candidate coordinates. They use floating point, so the distribution of the draws is not modelled.
- `DrawUntilPlaced`: the source loop `while (!placed)` has no bound and never ends when fewer eligible blocks than `mines` remain. The model stops when the candidates run out, and says then that every eligible candidate became a mine.
- `PlaceMines`: the same cut-off. "Exactly `mines` mines" holds only when the draws hold enough eligible candidates; with fewer, the source would not return at all, while the model places them all and returns.
- `GenerateMines`: its "exactly `mines` mines when there are enough eligible candidates" clause follows from `PlaceMines` and has the same cut-off.
- `LayMines`: the first click inherits the same cut-off from `GenerateMines`.
- `OnClick`: on the first click, the same cut-off applies to the mines laid.
- `Reset`: the sizes are `nat`, as in the constructor, where the source takes JavaScript numbers. Negative, fractional or non-finite sizes are not modelled.
- `generateMines` reads blocks through the board it is given. The model always passes the engine's own board, which is the only way `onClick` calls it.
- Object identity and aliasing of `BlockState` values are not modelled. A block reference is its coordinates, and a block the UI may still hold does not see later writes.
- The `blocks` getter is not modelled: it only flattens the board, and the model quantifies over rows and columns directly.
- The default arguments of `reset` are not modelled. `Reset` always takes all three sizes.
- The `BlockState` type definition is not part of this model; its fields are inferred from their use in `src/composables/logic.ts`.
