// The game session (src/hooks/useGameLogic.ts) with the React machinery
// stripped: one object holding the session record, the bag and the bag
// index, whose methods are the player's commands. Each command applies its
// whole transition at once; a lock is followed at once by the next spawn,
// against the board the lock produced.

module Session {
  import opened Pentomino
  import opened GameLogic

  /** Auto-drop period in milliseconds: `Math.max(50, 1000 - (level - 1) * 50)`. */
  function DropInterval(level: int): (ms: int)
    ensures ms >= 50
    ensures level >= 1 ==> ms <= 1000
    ensures level >= 20 ==> ms == 50
  {
    var ms := 1000 - (level - 1) * 50;
    if ms < 50 then 50 else ms
  }

  /** A higher level never drops more slowly. */
  lemma DropIntervalMonotone(a: int, b: int)
    requires a <= b
    ensures DropInterval(b) <= DropInterval(a)
  {
  }

  /**
   * The session invariant: a consistent full-size board, level derived from
   * the line total, a non-negative score, at most five previewed types, and
   * a current piece (if any) that is well shaped and fits the board.
   */
  ghost predicate ValidState(s: GameState)
  {
    IsBoard(s.grid, s.pieceGrid) && IsGrid(s.grid) && IsGrid(s.pieceGrid) &&
    s.lines >= 0 && s.level == s.lines / 10 + 1 && s.score >= 0 &&
    |s.nextPieces| <= 5 &&
    (s.currentPiece.Some? ==> WellShaped(s.currentPiece.value) && IsValid(s.currentPiece.value, s.grid))
  }

  /** Moves, drops and rotations act only on a live piece of a running game. */
  predicate Active(s: GameState)
  {
    s.currentPiece.Some? && !s.gameOver && !s.isPaused
  }

  /** Hold acts only while holding is enabled and the game is running. */
  predicate HoldAllowed(s: GameState)
  {
    s.canHold && !s.gameOver && !s.isPaused
  }

  /**
   * updateNextQueue's loop: up to five upcoming types read from a copy of
   * the bag, refilling the copy from a fresh bag when it runs out, and
   * skipping the first type read when it equals the current piece's type.
   * When the next five draws all come from the present bag, the preview is
   * exactly those draws, less a leading copy of the current type.
   */
  method PreviewQueue(bag: seq<PieceType>, bagIndex: int, currentPieceType: Option<PieceType>)
    returns (nextPieces: seq<PieceType>)
    requires IsBag(bag) && 0 <= bagIndex <= |bag|
    ensures |nextPieces| <= 5
    ensures bagIndex + 5 <= |bag| && currentPieceType != Some(bag[bagIndex]) ==>
      nextPieces == bag[bagIndex..bagIndex + 5]
    ensures bagIndex + 5 <= |bag| && currentPieceType == Some(bag[bagIndex]) ==>
      nextPieces == bag[bagIndex + 1..bagIndex + 5]
  {
    nextPieces := [];
    var tempBag := bag;
    var tempIndex := bagIndex;
    var skipped := bagIndex < |bag| && currentPieceType == Some(bag[bagIndex]);
    var i := 0;
    while i < 5
      invariant 0 <= i <= 5
      invariant |nextPieces| <= i
      invariant IsBag(tempBag) && 0 <= tempIndex <= |tempBag|
      invariant bagIndex + 5 <= |bag| ==>
        tempBag == bag && tempIndex == bagIndex + i &&
        nextPieces == (if skipped && i > 0 then bag[bagIndex + 1..bagIndex + i] else bag[bagIndex..bagIndex + i])
    {
      if tempIndex >= |tempBag| {
        tempBag := GenerateBag();
        tempIndex := 0;
      }
      var piece := tempBag[tempIndex];
      if bagIndex + 5 <= |bag| && i > 0 {
        BagDrawsDistinct(bag, bagIndex, bagIndex + i);
      }
      if Some(piece) != currentPieceType || |nextPieces| > 0 {
        nextPieces := nextPieces + [piece];
      }
      if bagIndex + 5 <= |bag| {
        assert bag[bagIndex..bagIndex + i] + [bag[bagIndex + i]] == bag[bagIndex..bagIndex + i + 1];
        if i > 0 {
          assert bag[bagIndex + 1..bagIndex + i] + [bag[bagIndex + i]] == bag[bagIndex + 1..bagIndex + i + 1];
        }
      }
      tempIndex := tempIndex + 1;
      if |nextPieces| >= 5 {
        break;
      }
      i := i + 1;
    }
  }

  /**
   * getNextPiece's effect on (bag, bagIndex): the next entry of the bag, or,
   * once the bag is used up, the first entry of a fresh bag.
   */
  ghost predicate Drew(bag0: seq<PieceType>, index0: int, bag1: seq<PieceType>, index1: int)
  {
    IsBag(bag1) && 1 <= index1 <= |bag1| &&
    if index0 < |bag0| then bag1 == bag0 && index1 == index0 + 1 else index1 == 1
  }

  /**
   * spawnNewPiece's effect: draw a type, create it at the spawn position;
   * if it does not fit, only the game-over flag changes; otherwise it
   * becomes the current piece, holding is re-enabled and the preview is
   * recomputed (showing the next five draws when they are all in the bag).
   */
  ghost predicate Spawned(s0: GameState, bag0: seq<PieceType>, index0: int,
                          s1: GameState, bag1: seq<PieceType>, index1: int)
  {
    IsGrid(s0.grid) && Drew(bag0, index0, bag1, index1) &&
    var p := CreatePiece(bag1[index1 - 1], SpawnPosition);
    if IsValid(p, s0.grid) then
      s1 == s0.(currentPiece := Some(p), canHold := true, nextPieces := s1.nextPieces) &&
      |s1.nextPieces| <= 5 &&
      (index1 + 5 <= |bag1| ==> s1.nextPieces == bag1[index1..index1 + 5])
    else
      s1 == s0.(gameOver := true)
  }

  /**
   * The state right after a lock: the piece stamped into both grids, full
   * rows cleared, the line score at the level before the lock plus the drop
   * bonus added, lines and level brought up to date, no current piece.
   */
  ghost function Locked(s: GameState, p: Piece, bonus: int): GameState
    requires IsGrid(s.grid) && IsGrid(s.pieceGrid)
  {
    var placed := Placed(p, s.grid);
    var cleared := CountFull(placed);
    var newLines := s.lines + cleared;
    s.(grid := Cleared(placed),
       pieceGrid := ClearedIds(PlacedIds(p, s.pieceGrid), placed),
       currentPiece := None,
       score := s.score + CalculateScore(cleared, s.level) + bonus,
       lines := newLines,
       level := newLines / 10 + 1)
  }

  /** A lock keeps the session invariant and never lowers the score. */
  lemma LockedKeepsValid(s: GameState, p: Piece, bonus: int)
    requires ValidState(s) && bonus >= 0
    ensures ValidState(Locked(s, p, bonus))
    ensures Locked(s, p, bonus).score == s.score + CalculateScore(CountFull(Placed(p, s.grid)), s.level) + bonus
    ensures Locked(s, p, bonus).score >= s.score + 40 * s.level + bonus
    ensures Locked(s, p, bonus).lines == s.lines + CountFull(Placed(p, s.grid))
  {
    PlacedKeepsBoard(p, s.grid, s.pieceGrid);
    var placed, placedIds := Placed(p, s.grid), PlacedIds(p, s.pieceGrid);
    ClearedKeepsBoard(placed, placedIds);
    BoardIsGrid(Cleared(placed), ClearedIds(placedIds, placed));
  }

  /**
   * hardDrop's effect: the current piece rests at row dropY; it is locked
   * there with two points per row descended, and the next piece spawns.
   */
  ghost predicate HardDropped(s0: GameState, bag0: seq<PieceType>, index0: int,
                              s1: GameState, bag1: seq<PieceType>, index1: int)
  {
    s0.currentPiece.Some? && IsGrid(s0.grid) && IsGrid(s0.pieceGrid) &&
    var p := s0.currentPiece.value;
    exists dropY | RestsAt(p, s0.grid, dropY) ::
      Spawned(Locked(s0, AtRow(p, dropY), 2 * (dropY - p.position.y)), bag0, index0, s1, bag1, index1)
  }

  lemma HardDroppedIntro(s0: GameState, dropped: Piece, bonus: int, dropY: int,
                         bag0: seq<PieceType>, index0: int, s1: GameState, bag1: seq<PieceType>, index1: int)
    requires s0.currentPiece.Some? && IsGrid(s0.grid) && IsGrid(s0.pieceGrid)
    requires RestsAt(s0.currentPiece.value, s0.grid, dropY)
    requires dropped == AtRow(s0.currentPiece.value, dropY)
    requires bonus == 2 * (dropY - s0.currentPiece.value.position.y)
    requires Spawned(Locked(s0, dropped, bonus), bag0, index0, s1, bag1, index1)
    ensures HardDropped(s0, bag0, index0, s1, bag1, index1)
  {
  }

  /** The session: the game record plus the bag it draws from. */
  class Game {
    var state: GameState
    var bag: seq<PieceType>
    var bagIndex: int

    ghost predicate Valid()
      reads this
    {
      ValidState(state) && IsBag(bag) && 0 <= bagIndex <= |bag|
    }

    /**
     * The hook's initial state (a fresh record, a fresh bag at index 0)
     * followed by the first spawn its mount effect performs, which on the
     * empty board always succeeds.
     */
    constructor ()
      ensures Valid()
      ensures state.grid == CreateEmptyGrid() && state.pieceGrid == CreateEmptyPieceGrid()
      ensures state.currentPiece == Some(CreatePiece(bag[0], SpawnPosition))
      ensures bagIndex == 1 && state.canHold && state.holdPiece == None
      ensures state.nextPieces == bag[1..6]
      ensures state.score == 0 && state.lines == 0 && state.level == 1
      ensures !state.gameOver && !state.isPaused
    {
      var s := CreateInitialGameState();
      var b := GenerateBag();
      state := s;
      bag := b;
      bagIndex := 0;
      new;
      SpawnFitsEmptyGrid(bag[0]);
      SpawnNewPiece();
    }

    /** getNextPiece: take the entry at bagIndex, refilling the bag first when it is used up. */
    method GetNextPiece() returns (piece: PieceType)
      requires Valid()
      modifies this
      ensures Valid() && state == old(state)
      ensures Drew(old(bag), old(bagIndex), bag, bagIndex)
      ensures piece == bag[bagIndex - 1]
      ensures old(bagIndex) < |old(bag)| ==> piece !in old(bag)[..old(bagIndex)]
    {
      var currentBag := bag;
      var currentIndex := bagIndex;
      if currentIndex >= |currentBag| {
        currentBag := GenerateBag();
        bag := currentBag;
        currentIndex := 0;
        bagIndex := 0;
      }
      piece := currentBag[currentIndex];
      bagIndex := currentIndex + 1;
      if old(bagIndex) < |old(bag)| {
        forall k | 0 <= k < old(bagIndex) ensures old(bag)[k] != piece {
          BagDrawsDistinct(bag, k, currentIndex);
        }
      }
    }

    /** updateNextQueue: recompute the preview; the bag and its index stay as they are. */
    method UpdateNextQueue(currentPieceType: Option<PieceType>)
      requires Valid()
      modifies this
      ensures Valid()
      ensures state == old(state).(nextPieces := state.nextPieces)
      ensures bag == old(bag) && bagIndex == old(bagIndex)
      ensures |state.nextPieces| <= 5
      ensures bagIndex + 5 <= |bag| && currentPieceType != Some(bag[bagIndex]) ==>
        state.nextPieces == bag[bagIndex..bagIndex + 5]
      ensures bagIndex + 5 <= |bag| && currentPieceType == Some(bag[bagIndex]) ==>
        state.nextPieces == bag[bagIndex + 1..bagIndex + 5]
    {
      var nextPieces := PreviewQueue(bag, bagIndex, currentPieceType);
      state := state.(nextPieces := nextPieces);
    }

    /** spawnNewPiece, against the present board. */
    method SpawnNewPiece()
      requires Valid()
      modifies this
      ensures Valid()
      ensures Spawned(old(state), old(bag), old(bagIndex), state, bag, bagIndex)
    {
      ghost var s0, b0, i0 := state, bag, bagIndex;
      var pieceType := GetNextPiece();
      assert Drew(b0, i0, bag, bagIndex) && state == s0;
      var newPiece := CreatePiece(pieceType, SpawnPosition);
      var ok := IsValidPosition(newPiece, state.grid);
      if !ok {
        state := state.(gameOver := true);
        return;
      }
      state := state.(currentPiece := Some(newPiece), canHold := true);
      if bagIndex + 5 <= |bag| {
        BagDrawsDistinct(bag, bagIndex - 1, bagIndex);
      }
      UpdateNextQueue(Some(newPiece.kind));
      assert state == s0.(currentPiece := Some(newPiece), canHold := true, nextPieces := state.nextPieces);
    }

    /** moveLeft: one column left if the moved piece fits, else nothing. */
    method MoveLeft()
      requires Valid()
      modifies this
      ensures Valid()
      ensures bag == old(bag) && bagIndex == old(bagIndex)
      ensures !Active(old(state)) ==> state == old(state)
      ensures Active(old(state)) ==>
        var moved := MovePiece(old(state).currentPiece.value, -1, 0);
        state == if IsValid(moved, old(state).grid) then old(state).(currentPiece := Some(moved)) else old(state)
    {
      if state.currentPiece.None? || state.gameOver || state.isPaused {
        return;
      }
      var movedPiece := MovePiece(state.currentPiece.value, -1, 0);
      var ok := IsValidPosition(movedPiece, state.grid);
      if ok {
        state := state.(currentPiece := Some(movedPiece));
      }
    }

    /** moveRight: one column right if the moved piece fits, else nothing. */
    method MoveRight()
      requires Valid()
      modifies this
      ensures Valid()
      ensures bag == old(bag) && bagIndex == old(bagIndex)
      ensures !Active(old(state)) ==> state == old(state)
      ensures Active(old(state)) ==>
        var moved := MovePiece(old(state).currentPiece.value, 1, 0);
        state == if IsValid(moved, old(state).grid) then old(state).(currentPiece := Some(moved)) else old(state)
    {
      if state.currentPiece.None? || state.gameOver || state.isPaused {
        return;
      }
      var movedPiece := MovePiece(state.currentPiece.value, 1, 0);
      var ok := IsValidPosition(movedPiece, state.grid);
      if ok {
        state := state.(currentPiece := Some(movedPiece));
      }
    }

    /** The lock both moveDown and hardDrop perform (without the spawn that follows it). */
    method LockPiece(piece: Piece, bonus: int)
      requires Valid() && bonus >= 0
      modifies this
      ensures Valid()
      ensures state == Locked(old(state), piece, bonus)
      ensures bag == old(bag) && bagIndex == old(bagIndex)
    {
      var newGrid, newPieceGrid := PlacePiece(piece, state.grid, state.pieceGrid);
      var clearedGrid, clearedPieceGrid, linesCleared := ClearLines(newGrid, newPieceGrid);
      var points := CalculateScore(linesCleared, state.level) + bonus;
      var newLines := state.lines + linesCleared;
      var newLevel := newLines / 10 + 1;
      LockedKeepsValid(state, piece, bonus);
      state := state.(
        grid := clearedGrid,
        pieceGrid := clearedPieceGrid,
        currentPiece := None,
        score := state.score + points,
        lines := newLines,
        level := newLevel);
    }

    /** A lock followed at once by the next spawn, against the post-lock board. */
    method LockAndSpawn(piece: Piece, bonus: int)
      requires Valid() && bonus >= 0
      modifies this
      ensures Valid()
      ensures Spawned(Locked(old(state), piece, bonus), old(bag), old(bagIndex), state, bag, bagIndex)
    {
      LockPiece(piece, bonus);
      SpawnNewPiece();
    }

    /**
     * moveDown: one row down if that fits; otherwise lock the piece where it
     * is and spawn the next one on the resulting board.
     */
    method MoveDown()
      requires Valid()
      modifies this
      ensures Valid()
      ensures !Active(old(state)) ==> state == old(state) && bag == old(bag) && bagIndex == old(bagIndex)
      ensures Active(old(state)) ==>
        var p := old(state).currentPiece.value;
        var moved := MovePiece(p, 0, 1);
        if IsValid(moved, old(state).grid) then
          state == old(state).(currentPiece := Some(moved)) && bag == old(bag) && bagIndex == old(bagIndex)
        else
          Spawned(Locked(old(state), p, 0), old(bag), old(bagIndex), state, bag, bagIndex)
    {
      if state.currentPiece.None? || state.gameOver || state.isPaused {
        return;
      }
      var current := state.currentPiece.value;
      var movedPiece := MovePiece(current, 0, 1);
      var ok := IsValidPosition(movedPiece, state.grid);
      if ok {
        state := state.(currentPiece := Some(movedPiece));
      } else {
        LockAndSpawn(current, 0);
      }
    }

    /**
     * hardDrop: lock the piece at its resting row, adding two points per row
     * descended to the line score, then spawn the next one.
     */
    method HardDrop()
      requires Valid()
      modifies this
      ensures Valid()
      ensures !Active(old(state)) ==> state == old(state) && bag == old(bag) && bagIndex == old(bagIndex)
      ensures Active(old(state)) ==> HardDropped(old(state), old(bag), old(bagIndex), state, bag, bagIndex)
    {
      if state.currentPiece.None? || state.gameOver || state.isPaused {
        return;
      }
      var current := state.currentPiece.value;
      ShapeHasCell(current.kind, current.rotation);
      var ghostPiece := GetGhostPiece(current, state.grid);
      var droppedPiece := current.(position := ghostPiece.position);
      var rows := ghostPiece.position.y - current.position.y;
      var dropBonus := (if rows < 0 then -rows else rows) * 2;
      ghost var dropY := ghostPiece.position.y;
      assert droppedPiece == AtRow(current, dropY) && dropBonus == 2 * (dropY - current.position.y);
      ghost var s0, bag0, index0 := state, bag, bagIndex;
      LockAndSpawn(droppedPiece, dropBonus);
      HardDroppedIntro(s0, droppedPiece, dropBonus, dropY, bag0, index0, state, bag, bagIndex);
    }

    /** rotateCW, rotateCCW, rotate180: take the kick search's result, if any. */
    method Rotate(d: Direction)
      requires Valid()
      modifies this
      ensures Valid()
      ensures bag == old(bag) && bagIndex == old(bagIndex)
      ensures !Active(old(state)) ==> state == old(state)
      ensures Active(old(state)) ==>
        exists r | FirstValid(Attempts(old(state).currentPiece.value, d), old(state).grid, r) ::
          state == if r.Some? then old(state).(currentPiece := r) else old(state)
    {
      if state.currentPiece.None? || state.gameOver || state.isPaused {
        return;
      }
      var rotatedPiece := TryRotateWithKicks(state.currentPiece.value, d, state.grid);
      ghost var s0 := state;
      RotationResult(state.currentPiece.value, d, state.grid, rotatedPiece);
      if rotatedPiece.Some? {
        state := state.(currentPiece := rotatedPiece);
      }
      assert FirstValid(Attempts(s0.currentPiece.value, d), s0.grid, rotatedPiece);
    }

    /**
     * hold: with an empty hold slot, stash the current type, drop the piece
     * and spawn the next; with a held type, swap only if the held piece fits
     * at the spawn position. Either way holding is then disabled (though the
     * spawn after stashing enables it again).
     */
    method Hold()
      requires Valid()
      requires HoldAllowed(state) ==> state.currentPiece.Some?
      modifies this
      ensures Valid()
      ensures !HoldAllowed(old(state)) ==> state == old(state) && bag == old(bag) && bagIndex == old(bagIndex)
      ensures HoldAllowed(old(state)) && old(state).holdPiece.Some? ==>
        var swapped := CreatePiece(old(state).holdPiece.value, SpawnPosition);
        bag == old(bag) && bagIndex == old(bagIndex) &&
        state == if IsValid(swapped, old(state).grid) then
          old(state).(currentPiece := Some(swapped),
                      holdPiece := Some(old(state).currentPiece.value.kind),
                      canHold := false)
        else old(state)
      ensures HoldAllowed(old(state)) && old(state).holdPiece.None? ==>
        Spawned(old(state).(holdPiece := Some(old(state).currentPiece.value.kind),
                            currentPiece := None,
                            canHold := false),
                old(bag), old(bagIndex), state, bag, bagIndex)
    {
      if !state.canHold || state.gameOver || state.isPaused {
        return;
      }
      if state.holdPiece.Some? {
        var newPiece := CreatePiece(state.holdPiece.value, SpawnPosition);
        var ok := IsValidPosition(newPiece, state.grid);
        if ok {
          state := state.(
            currentPiece := Some(newPiece),
            holdPiece := Some(state.currentPiece.value.kind),
            canHold := false);
        }
      } else {
        state := state.(
          holdPiece := Some(state.currentPiece.value.kind),
          currentPiece := None,
          canHold := false);
        SpawnNewPiece();
      }
    }

    /** pauseGame: flip the paused flag and nothing else. */
    method PauseGame()
      requires Valid()
      modifies this
      ensures Valid()
      ensures state == old(state).(isPaused := !old(state).isPaused)
      ensures bag == old(bag) && bagIndex == old(bagIndex)
    {
      state := state.(isPaused := !state.isPaused);
    }

    /** resetGame: a fresh record, a fresh bag at index 0; no piece is spawned. */
    method ResetGame()
      requires Valid()
      modifies this
      ensures Valid()
      ensures state.grid == CreateEmptyGrid() && state.pieceGrid == CreateEmptyPieceGrid()
      ensures state.currentPiece == None && state.holdPiece == None && state.canHold
      ensures state.score == 0 && state.lines == 0 && state.level == 1
      ensures !state.gameOver && !state.isPaused
      ensures |state.nextPieces| == 5
      ensures forall i, j | 0 <= i < j < 5 :: state.nextPieces[i] != state.nextPieces[j]
      ensures bagIndex == 0
    {
      var newGameState := CreateInitialGameState();
      state := newGameState;
      var newBag := GenerateBag();
      bag := newBag;
      bagIndex := 0;
    }
  }
}
