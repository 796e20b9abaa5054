# Pentris rules engine in Dafny

This project models the rules engine of Pentris, a falling-block game played with the
twelve pentominoes on a 10 x 20 board, and proves properties of the model.

It has three modules, one per source file:

- `Pentomino` (`pentomino.dfy`, from `src/types/pentomino.ts`) covers:
  - the piece types, positions and pieces;
  - the session record, which carries both the occupancy grid and the piece-identity grid;
  - the SRS (Super Rotation System) wall-kick table;
  - the 48 shape matrices, reproduced cell for cell.

  Its lemmas prove facts about the two tables:
  - the table has exactly eight keys;
  - each key has five offsets, the first being (0, 0);
  - the offsets of b->a are those of a->b negated;
  - every matrix has five filled cells, is rectangular, uses only 0/1 and fits in 5 x 5;
  - some matrices repeat.
- `GameLogic` (`game_logic.dfy`, from `src/utils/gameLogic.ts`) covers:
  - the empty grids;
  - the 12-piece bag and its Fisher-Yates shuffle;
  - piece creation, translation and rotation;
  - the collision test;
  - the wall-kick search;
  - stamping a piece into both grids;
  - batch line clearing;
  - the score table;
  - the drop-to-floor projection (ghost piece).

  The functions the source writes as loops are methods. Each method is proved against a declarative specification:
  - `IsValid` for the collision test;
  - `Placed`/`PlacedIds` for stamping;
  - `Cleared`/`ClearedIds` for line clearing;
  - `FirstValid` over `Attempts` for the kick search;
  - `RestsAt` for the drop;
  - multisets for the shuffle.

  Lemmas then state what those specifications mean.
- `Session` (`session.dfy`, from `src/hooks/useGameLogic.ts`) is the game session with the React machinery stripped.
  - The class `Game` holds the session record, the bag and the bag index.
  - Its methods are the player's commands: move, soft drop with lock, hard drop, rotate, hold, spawn, pause and reset.
  - Each command applies its whole transition at once.
  - A lock is followed at once by the next spawn, against the board the lock produced.
  - Every command keeps the session invariant `Game.Valid`:
    - a consistent board;
    - `level == lines / 10 + 1`;
    - a non-negative score;
    - at most five previewed types;
    - a current piece that is well shaped and fits the board.

`Math.random` in the shuffle becomes a nondeterministic choice of `j` in `[0, i]`. The
proofs therefore hold for every sequence of random draws.

## Model

| member | source | states |
|---|---|---|
| Pentomino.KickTable | src/types/pentomino.ts:34-51 | the table has an entry exactly for the eight keys 0->1, 1->0, 1->2, 2->1, 2->3, 3->2, 3->0, 0->3; every entry lists five offsets and the first is (0, 0) |
| Pentomino.KickTableSymmetric | src/types/pentomino.ts:36-50 | for every key a->b, the key b->a exists and its offsets are those of a->b negated pointwise |
| Pentomino.Shapes | src/types/pentomino.ts:54-363 | every piece type has exactly four rotation matrices |
| Pentomino.ShapeOf | src/types/pentomino.ts:54-363 | `PENTOMINO_SHAPES[type][rotation]`: the matrix of a type at a rotation state (its facts are stated by ShapeTable, ShapeHasCell and RepeatedShapes) |
| Pentomino.ShapeTable | src/types/pentomino.ts:53-363 | every matrix of every type and rotation has exactly five cells equal to 1, is rectangular, has only 0/1 cells, and has 1 to 5 rows and columns |
| Pentomino.ShapeHasCell | src/types/pentomino.ts:53-363 | every matrix of the table has an occupied cell |
| Pentomino.RepeatedShapes | src/types/pentomino.ts:55-80 | X's four matrices are identical; I and Z repeat rotation 0 at 2 and rotation 1 at 3; N rotation 0 equals Y rotation 0 (lines 181-206, 233-258, 209-212, 339-342) |
| GameLogic.CreateEmptyGrid | src/utils/gameLogic.ts:6-8 | a 20 x 10 grid of zeros |
| GameLogic.CreateEmptyPieceGrid | src/utils/gameLogic.ts:10-12 | a 20 x 10 identity grid with no piece anywhere |
| GameLogic.EmptyBoard | src/utils/gameLogic.ts:6-12 | the two empty grids form a consistent board |
| GameLogic.CreateInitialGameState | src/utils/gameLogic.ts:14-29 | the initial record has empty grids forming a consistent board, no current or held piece, can hold, score 0, lines 0, level 1, not over, not paused, and a preview of five distinct types taken from entries 1..5 of a fresh bag |
| GameLogic.AllTypesIsBag | src/utils/gameLogic.ts:33 | the list of the twelve types holds every type exactly once |
| GameLogic.BagDrawsDistinct | src/utils/gameLogic.ts:32-35 | two different positions of a bag hold different types |
| GameLogic.PermutedBag | src/utils/gameLogic.ts:32-35 | a reordering of a bag is a bag |
| GameLogic.ShuffleArray | src/utils/gameLogic.ts:37-44 | for every choice of the random indices, the shuffle returns a permutation of its input (same length, same multiset); the input is a value and stays untouched |
| GameLogic.SwapKeepsMultiset | src/utils/gameLogic.ts:41 | one swap of the shuffle keeps the multiset of entries |
| GameLogic.GenerateBag | src/utils/gameLogic.ts:32-35 | a fresh bag has twelve entries and holds each of the twelve types exactly once |
| GameLogic.CreatePiece | src/utils/gameLogic.ts:46-53 | a new piece has the given type and position, rotation 0, and the table's matrix for that type and rotation |
| GameLogic.CreatedIsPentomino | src/utils/gameLogic.ts:46-53 | every created piece's matrix has exactly five filled cells and is a well-formed 0/1 matrix |
| GameLogic.TargetRotation | src/utils/gameLogic.ts:56-64 | the new rotation state is one, three or two quarter turns clockwise from the old one (mod 4) for clockwise, counterclockwise and 180, and always differs from it |
| GameLogic.RotatePiece | src/utils/gameLogic.ts:55-71 | rotation keeps type and position; the new rotation is (r+1)%4, (r+3)%4 or (r+2)%4 for clockwise, counterclockwise and 180; the new matrix is the table's matrix for it |
| GameLogic.MovePiece | src/utils/gameLogic.ts:170-178 | a move changes only the position, by exactly (dx, dy) |
| GameLogic.FourTurnsRestore | src/utils/gameLogic.ts:55-71 | four clockwise rotations restore a piece's rotation and matrix |
| GameLogic.TurnsAreInverse | src/utils/gameLogic.ts:58-61 | clockwise and counterclockwise undo each other |
| GameLogic.HalfTurn | src/utils/gameLogic.ts:62-63 | a 180 rotation equals two clockwise rotations and undoes itself |
| GameLogic.MovesCompose | src/utils/gameLogic.ts:170-178 | translations add up, and the opposite move undoes a move |
| GameLogic.IsValidPosition | src/utils/gameLogic.ts:73-93 | the scan returns true exactly when every occupied cell lands at 0 <= x < 10 and y < 20, on an empty grid cell when y >= 0 (cells above the top are not read) |
| GameLogic.ValidAboveFloor | src/utils/gameLogic.ts:81 | a valid piece with an occupied cell has its origin above row 20 |
| GameLogic.SpawnFitsEmptyGrid | src/utils/gameLogic.ts:46-53 | every type created at the spawn position (3, 0) fits the empty grid |
| GameLogic.KicksFor | src/utils/gameLogic.ts:119 | the table lookup with the empty list as fallback: the key's five offsets for a quarter-turn key, the empty list for any other key (same expression at lines 134 and 150) |
| GameLogic.Kicked | src/utils/gameLogic.ts:121-127 | a kicked candidate keeps the rotated piece's type, matrix and rotation, and sits at the original position shifted by exactly the offset (same construction at lines 136-142 and 154-160) |
| GameLogic.KickedAll | src/utils/gameLogic.ts:120-131 | the candidates of an offset list, one per offset in the list's order, each the kicked piece for that offset |
| GameLogic.KickCandidatesShape | src/utils/gameLogic.ts:107-150 | each quarter turn looks up a table entry with five offsets and a half turn looks up two (ten offsets); the first offset tried is (0, 0) |
| GameLogic.KickedAllAppend | src/utils/gameLogic.ts:113-147 | the candidates of two concatenated offset lists are the first list's candidates followed by the second's |
| GameLogic.FirstValidUnique | src/utils/gameLogic.ts:95-168 | the first valid candidate, or none, is determined uniquely |
| GameLogic.FirstValidConcat | src/utils/gameLogic.ts:118-147 | searching the first kick list and then the second one gives the first valid candidate of the concatenation |
| GameLogic.TryKicks | src/utils/gameLogic.ts:150-167 | the loop over one kick list returns the first kicked placement that is valid, or None when none is |
| GameLogic.TryRotateWithKicks | src/utils/gameLogic.ts:95-168 | the result is the first valid placement among the unkicked rotation and then the kicked ones, in the source's order (for 180: all offsets of r->r+1, then all of r+1->r+2, each applied to the half-turned matrix at the original position); None means all are invalid |
| GameLogic.RotationResult | src/utils/gameLogic.ts:95-168 | a rotation result is valid, has the rotated type, rotation and matrix, and sits at the original position plus an offset from the candidate list; the unkicked rotation wins whenever it is valid; None implies the unkicked rotation is invalid |
| GameLogic.PlacePiece | src/utils/gameLogic.ts:180-198 | the new grids equal the inputs except that each occupied on-board piece cell becomes 1 and the piece's type; off-board cells are skipped, and the inputs are values left untouched |
| GameLogic.PlacedKeepsBoard | src/utils/gameLogic.ts:180-198 | stamping keeps the two grids a consistent board |
| GameLogic.PlacedCells | src/utils/gameLogic.ts:189-192 | a covered on-board cell is filled and every other cell is unchanged |
| GameLogic.CountFull | src/utils/gameLogic.ts:204-208 | the number of rows passing `IsFull` (every cell non-zero) is at most the row count |
| GameLogic.CountFullBounds | src/utils/gameLogic.ts:204-210 | the count is zero exactly when no row is full, and equals the row count exactly when every row is full |
| GameLogic.WithoutIndices | src/utils/gameLogic.ts:215-216 | the filter on indices is never longer than its input, and returns the input when none of its indices is dropped |
| GameLogic.WithoutFullRows | src/utils/gameLogic.ts:215-216 | filtering out the indices of the full rows keeps exactly the rows that are not full, in order |
| GameLogic.SurvivingLength | src/utils/gameLogic.ts:215-224 | removed rows plus surviving rows add up to the original row count |
| GameLogic.SurvivorsNotFull | src/utils/gameLogic.ts:215 | no surviving row is full |
| GameLogic.SurvivorsConsistent | src/utils/gameLogic.ts:215-216 | identity-grid rows are removed at the same indices as occupancy rows, so the survivors stay paired |
| GameLogic.NothingFullSurvives | src/utils/gameLogic.ts:210-212 | with no full rows, every row survives |
| GameLogic.ClearedKeepsBoard | src/utils/gameLogic.ts:200-225 | the cleared board is consistent and has 20 rows; its first linesCleared rows are empty in both grids, and no row below them is full |
| GameLogic.ClearLines | src/utils/gameLogic.ts:200-225 | linesCleared is the number of full rows; the grids are that many empty rows followed by the non-full rows in order, in both grids; with no full rows the inputs are returned unchanged |
| GameLogic.CalculateScore | src/utils/gameLogic.ts:227-230 | the points for a clear lie between 40 x level and 2000 x level |
| GameLogic.ScoreTable | src/utils/gameLogic.ts:227-230 | 1, 2, 3 and 4 lines score 40, 100, 300 and 1200 times the level; 5 or more lines score 2000 times the level; 0 lines also score 2000 times the level, because a base of 0 falls back to 2000 |
| GameLogic.AtRow | src/utils/gameLogic.ts:235 | the probe piece is the piece moved vertically to the given row, nothing else changed; at its own row it is the piece itself (same construction at lines 244-250) |
| GameLogic.RestsAtUnique | src/utils/gameLogic.ts:232-240 | a piece has only one resting row |
| GameLogic.GetDropPosition | src/utils/gameLogic.ts:232-240 | dropY is at or below the start row, every row passed is valid, and one row further is invalid; the loop ends because a matrix with an occupied cell reaches the floor |
| GameLogic.GetGhostPiece | src/utils/gameLogic.ts:242-251 | the ghost differs from the piece only in y, which is its resting row |
| GameLogic.DropPathValid | src/utils/gameLogic.ts:232-240 | a valid piece stays valid at every row down to its resting row |
| Session.DropInterval | src/hooks/useGameLogic.ts:44 | the auto-drop period is at least 50 ms, at most 1000 ms from level 1, and exactly 50 ms from level 20 |
| Session.DropIntervalMonotone | src/hooks/useGameLogic.ts:44 | a higher level never drops more slowly |
| Session.PreviewQueue | src/hooks/useGameLogic.ts:75-95 | at most five previewed types; when the next five draws lie in the bag, the preview is exactly those draws, less a leading copy of the current type |
| Session.LockedKeepsValid | src/hooks/useGameLogic.ts:140-161 | a lock keeps the session invariant; the score grows by exactly the line score at the pre-lock level plus the bonus (so by at least 40 x level plus the bonus); lines grow by the number of cleared rows |
| Session.Game.constructor | src/hooks/useGameLogic.ts:18-29 | a new session is the initial record and a fresh bag, followed by the first spawn, which always fits the empty board: the current piece is bag[0] at (3, 0), bagIndex is 1, and the preview is bag[1..6] |
| Session.Game.GetNextPiece | src/hooks/useGameLogic.ts:58-73 | the draw is bag[bagIndex] and the index advances; an exhausted bag is replaced by a fresh one drawn from 0; a draw differs from every earlier draw of the same bag |
| Session.Game.UpdateNextQueue | src/hooks/useGameLogic.ts:75-95 | only the preview changes; bag and bagIndex do not; the preview has at most five types; when the next five draws lie in the bag it is those draws, less the first one when that equals the given current type (the skip rule at lines 86-88) |
| Session.Game.SpawnNewPiece | src/hooks/useGameLogic.ts:97-114 | draw a type and create it at (3, 0); if it does not fit, only gameOver changes; otherwise it becomes current, canHold becomes true and the preview shows the next five draws |
| Session.Game.MoveLeft | src/hooks/useGameLogic.ts:116-123 | no-op without a current piece or when over or paused; otherwise moves one column left exactly when the moved piece is valid, else leaves the state unchanged |
| Session.Game.MoveRight | src/hooks/useGameLogic.ts:125-132 | the same for one column right |
| Session.Game.LockPiece | src/hooks/useGameLogic.ts:140-161 | grid and identity grid become the cleared stamped grids; score grows by the line score at the old level plus the bonus; lines grow by the cleared count; level is lines/10+1; no current piece |
| Session.Game.LockAndSpawn | src/hooks/useGameLogic.ts:140-164 | the lock, then the spawn against the post-lock board |
| Session.Game.MoveDown | src/hooks/useGameLogic.ts:134-166 | no-op when inactive; moves one row down when that is valid; otherwise locks the piece where it is and spawns the next piece |
| Session.Game.HardDrop | src/hooks/useGameLogic.ts:168-197 | no-op when inactive; otherwise locks the piece at its resting row with a bonus of 2 x rows descended on top of the line score, then spawns the next piece |
| Session.Game.Rotate | src/hooks/useGameLogic.ts:199-224 | no-op when inactive; otherwise replaces the current piece with the kick search's result, and only when that result is non-null |
| Session.Game.Hold | src/hooks/useGameLogic.ts:226-250 | no-op when canHold is false or the game is over or paused; with an empty slot, stashes the current type, clears the current piece, disables holding and spawns; with a held type, swaps (canHold false) only if the held piece fits at (3, 0), else nothing changes |
| Session.Game.PauseGame | src/hooks/useGameLogic.ts:252-254 | only isPaused flips |
| Session.Game.ResetGame | src/hooks/useGameLogic.ts:256-262 | a fresh initial record (empty grids, counters reset, a preview of five distinct types) and a fresh bag at index 0; no piece is spawned |

## Left out

- React state, `useCallback` closures and the `setTimeout(spawnNewPiece, 100)` delay are not modelled.
  - Every command is one atomic transition.
  - A lock is followed at once by a spawn against the post-lock board.
  - In the source, the delayed spawn's closure still sees the grid from before the lock.
- The auto-drop `setInterval` driver is not modelled. Only its period formula is, as `DropInterval`.
- The ghost-piece state is not modelled, because it is display-only. `GetGhostPiece` is modelled, and hard drop uses it.
- `toast` notifications are left out: they are UI side effects.
- `Math.random` is replaced by a nondeterministic index in `[0, i]`. The model proves the permutation property, not uniformity.
- Session.Game.SpawnNewPiece: the preview is computed from the bag and index after the draw.
  - In the source, the preview call inside a spawn reads bag and index values captured before the draw, a stale closure.
  - There, the first type read is the piece just spawned, and the skip rule drops it.
  - In the middle of a bag, the source's preview after a spawn therefore holds four types: the loop makes five passes and the first is skipped (src/hooks/useGameLogic.ts:80-92). The model's preview holds the next five draws.
  - The model states the preview only when the next five draws lie in the present bag. It does not claim that the preview agrees with future draws across a bag boundary, where the source previews a throwaway bag.
- Session.Game.Hold requires a current piece whenever a hold is allowed. The source dereferences `currentPiece!` and has no behaviour for a missing piece.
- Session.Game.Hold into an empty slot sets `canHold` to false, but the spawn that follows sets it to true again. This follows the code. The rule that a hold can be used only once between two locks therefore does not hold after a hold into an empty slot.
- GameLogic.ScoreTable follows the code: 0 cleared lines scores `2000 * level`, because `baseScores[0]` is `0` and `|| 2000` replaces it. The comment beside the table (src/utils/gameLogic.ts:228) pairs 0 lines with base 0. A negative count reads an undefined entry and falls back to 2000 as well.
- Session.Game.ResetGame does not spawn a piece, as in the code. Only the hook's mount effect spawns one (src/hooks/useGameLogic.ts:24-29).
  - After a reset there is no current piece, and no command spawns one: moves, drops and rotations are no-ops without a piece, and the auto-drop timer runs only while there is one. The game is stuck.
  - In the source, a hold in that state dereferences the missing piece (src/hooks/useGameLogic.ts:244) and fails. The model does not represent that failure: Session.Game.Hold's precondition excludes the state.
- The declared `GameState` interface has no `pieceGrid`, but every use of the record carries one, so the model's record has both grids.
- Numbers are unbounded integers. The source's values stay small, so JavaScript's floating-point numbers behave as integers here.
- UI components (`src/components/game/*`) and keyboard binding (`src/hooks/useKeyboardControls.ts`) are not part of this model.
