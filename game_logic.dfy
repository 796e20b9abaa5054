// The board and piece engine (src/utils/gameLogic.ts): grid constants and
// constructors, the 12-piece bag and its Fisher-Yates shuffle, piece
// creation, translation and rotation, the collision test, SRS wall kicks,
// stamping a piece into the grids, batch line clearing, the score table and
// the drop-to-floor projection.
//
// The loops of the source (the collision test, stamping, the full-row scan,
// the kick search, the drop search and the shuffle) are methods; each is
// proved against a declarative specification (IsValid, Placed, Cleared,
// FirstValid, RestsAt, multisets), and the lemmas state what those mean.

module GameLogic {
  import opened Pentomino

  const GridWidth := 10
  const GridHeight := 20

  // ---------------------------------------------------------------------------
  // Grids
  // ---------------------------------------------------------------------------

  /** A GridHeight x GridWidth matrix. */
  predicate IsGrid<C>(g: seq<seq<C>>)
  {
    |g| == GridHeight && forall y | 0 <= y < |g| :: |g[y]| == GridWidth
  }

  /**
   * One board row and its identity row: cells are 0 or 1, and an identity
   * cell names a piece exactly where the occupancy cell is filled.
   */
  predicate RowConsistent(row: seq<int>, ids: seq<Option<PieceType>>)
  {
    |row| == GridWidth && |ids| == GridWidth &&
    forall x | 0 <= x < GridWidth :: (row[x] == 0 || row[x] == 1) && (ids[x].Some? <==> row[x] == 1)
  }

  /** The board invariant: both grids full-sized and consistent cell by cell. */
  predicate IsBoard(grid: Grid, pieceGrid: PieceGrid)
  {
    |grid| == GridHeight && |pieceGrid| == GridHeight &&
    forall y | 0 <= y < GridHeight :: RowConsistent(grid[y], pieceGrid[y])
  }

  lemma BoardIsGrid(grid: Grid, pieceGrid: PieceGrid)
    requires IsBoard(grid, pieceGrid)
    ensures IsGrid(grid) && IsGrid(pieceGrid)
  {
    forall y | 0 <= y < GridHeight ensures |grid[y]| == GridWidth && |pieceGrid[y]| == GridWidth {
      assert RowConsistent(grid[y], pieceGrid[y]);
    }
  }

  /** n rows of GridWidth copies of `blank`. */
  function BlankRows<C>(n: nat, blank: C): (rows: seq<seq<C>>)
    ensures |rows| == n
    ensures forall y, x | 0 <= y < n && 0 <= x < GridWidth :: |rows[y]| == GridWidth && rows[y][x] == blank
  {
    seq(n, _ => seq(GridWidth, _ => blank))
  }

  function CreateEmptyGrid(): (g: Grid)
    ensures IsGrid(g)
    ensures forall y, x | 0 <= y < GridHeight && 0 <= x < GridWidth :: g[y][x] == 0
  {
    BlankRows(GridHeight, 0)
  }

  function CreateEmptyPieceGrid(): (g: PieceGrid)
    ensures IsGrid(g)
    ensures forall y, x | 0 <= y < GridHeight && 0 <= x < GridWidth :: g[y][x] == None
  {
    BlankRows(GridHeight, None)
  }

  /** The two empty grids form a consistent board. */
  lemma EmptyBoard()
    ensures IsBoard(CreateEmptyGrid(), CreateEmptyPieceGrid())
  {
    var g, ids := CreateEmptyGrid(), CreateEmptyPieceGrid();
    forall y | 0 <= y < GridHeight ensures RowConsistent(g[y], ids[y]) {
      assert forall x | 0 <= x < GridWidth :: g[y][x] == 0 && ids[y][x] == None;
    }
  }

  // ---------------------------------------------------------------------------
  // The bag
  // ---------------------------------------------------------------------------

  /** The twelve types in the order the source lists them. */
  const AllTypes: seq<PieceType> := [I, P, U, V, W, X, Y, Z, F, T, L, N]

  /** A bag: twelve entries holding every type exactly once. */
  ghost predicate IsBag(b: seq<PieceType>)
  {
    |b| == 12 && forall t: PieceType :: multiset(b)[t] == 1
  }

  /** The source's list of the twelve types is itself a bag. */
  lemma AllTypesIsBag()
    ensures IsBag(AllTypes)
  {
    forall t: PieceType
      ensures multiset(AllTypes)[t] == 1
    {
      AllTypesOnce(t);
    }
  }

  lemma AllTypesOnce(t: PieceType)
    ensures multiset(AllTypes)[t] == 1
  {
    assert t in AllTypes;
    OnceIfDistinct(AllTypes, t);
  }

  /** In a sequence without repeats, a member occurs exactly once. */
  lemma OnceIfDistinct(s: seq<PieceType>, x: PieceType)
    requires forall i, j | 0 <= i < j < |s| :: s[i] != s[j]
    requires x in s
    ensures multiset(s)[x] == 1
  {
    var k :| 0 <= k < |s| && s[k] == x;
    assert s == s[..k] + [x] + s[k + 1..];
    assert x !in s[..k];
    assert x !in s[k + 1..];
  }

  /** Reordering a bag gives a bag. */
  lemma PermutedBag(a: seq<PieceType>, b: seq<PieceType>)
    requires IsBag(a) && |b| == |a| && multiset(b) == multiset(a)
    ensures IsBag(b)
  {
  }

  /** Two draws from different places of one bag are different types. */
  lemma BagDrawsDistinct(b: seq<PieceType>, i: int, j: int)
    requires IsBag(b)
    requires 0 <= i < j < |b|
    ensures b[i] != b[j]
  {
    assert b == b[..j] + [b[j]] + b[j + 1..];
    assert b[..j][i] == b[i];
    assert multiset(b)[b[j]] == multiset(b[..j])[b[j]] + 1 + multiset(b[j + 1..])[b[j]];
    assert multiset(b[..j])[b[i]] >= 1;
  }

  /**
   * Fisher-Yates over a copy of the input: for i from the last index down to
   * 1, swap element i with an element at an index j <= i. The source draws j
   * from Math.random; here j is any index in [0, i].
   */
  method ShuffleArray<E>(s: seq<E>) returns (r: seq<E>)
    ensures |r| == |s|
    ensures multiset(r) == multiset(s)
  {
    var a := new E[|s|](k requires 0 <= k < |s| => s[k]);
    assert a[..] == s;
    var i := a.Length - 1;
    while i > 0
      invariant i < a.Length
      invariant multiset(a[..]) == multiset(s)
    {
      var j :| 0 <= j <= i;
      ghost var before := a[..];
      a[i], a[j] := a[j], a[i];
      assert a[..] == before[i := before[j]][j := before[i]];
      SwapKeepsMultiset(before, i, j);
      i := i - 1;
    }
    r := a[..];
  }

  /** Exchanging two entries keeps the multiset of entries. */
  lemma SwapKeepsMultiset<E>(s: seq<E>, i: int, j: int)
    requires 0 <= i < |s| && 0 <= j < |s|
    ensures multiset(s[i := s[j]][j := s[i]]) == multiset(s)
  {
  }

  /** A fresh bag: the twelve types, shuffled. */
  method GenerateBag() returns (bag: seq<PieceType>)
    ensures |bag| == 12
    ensures IsBag(bag)
  {
    bag := ShuffleArray(AllTypes);
    AllTypesIsBag();
    PermutedBag(AllTypes, bag);
  }

  // ---------------------------------------------------------------------------
  // The initial session record
  // ---------------------------------------------------------------------------

  /**
   * createInitialGameState: empty board, no pieces, counters at their
   * start values, and the preview filled from entries 1..5 of a fresh bag.
   */
  method CreateInitialGameState() returns (s: GameState)
    ensures IsBoard(s.grid, s.pieceGrid)
    ensures s.grid == CreateEmptyGrid() && s.pieceGrid == CreateEmptyPieceGrid()
    ensures s.currentPiece == None && s.holdPiece == None && s.canHold
    ensures s.score == 0 && s.lines == 0 && s.level == 1
    ensures !s.gameOver && !s.isPaused
    ensures |s.nextPieces| == 5
    ensures forall i, j | 0 <= i < j < 5 :: s.nextPieces[i] != s.nextPieces[j]
  {
    var bag := GenerateBag();
    EmptyBoard();
    forall i, j | 0 <= i < j < 5 ensures bag[1..6][i] != bag[1..6][j] {
      BagDrawsDistinct(bag, i + 1, j + 1);
    }
    s := GameState(
      grid := CreateEmptyGrid(),
      pieceGrid := CreateEmptyPieceGrid(),
      currentPiece := None,
      nextPieces := bag[1..6],
      holdPiece := None,
      canHold := true,
      score := 0,
      lines := 0,
      level := 1,
      gameOver := false,
      isPaused := false);
  }

  // ---------------------------------------------------------------------------
  // Pieces
  // ---------------------------------------------------------------------------

  /** Where new pieces appear (the default argument of createPiece). */
  const SpawnPosition := Position(3, 0)

  /** A piece whose matrix is the table's matrix for its type and rotation. */
  predicate WellShaped(p: Piece)
  {
    p.shape == ShapeOf(p.kind, p.rotation)
  }

  /** A new piece at rotation 0 with the table's first matrix: five cells. */
  function CreatePiece(t: PieceType, position: Position): (p: Piece)
    ensures p.kind == t && p.position == position && p.rotation == 0
    ensures WellShaped(p)
  {
    Piece(t, ShapeOf(t, 0), position, 0)
  }

  /** A created piece is a well-formed pentomino matrix: five filled cells. */
  lemma CreatedIsPentomino(t: PieceType, position: Position)
    ensures CellCount(CreatePiece(t, position).shape) == 5
    ensures WellFormedShape(CreatePiece(t, position).shape)
    ensures HasCell(CreatePiece(t, position).shape)
  {
    ShapeTable(t, 0);
    ShapeHasCell(t, 0);
  }

  /** The three rotation commands: 'clockwise', 'counterclockwise', '180'. */
  datatype Direction = Clockwise | CounterClockwise | Half

  /**
   * The rotation state reached from r: one quarter turn clockwise, three
   * (one counterclockwise) or two, modulo four.
   */
  function TargetRotation(r: Rotation, d: Direction): (target: Rotation)
    ensures (target - r + 4) % 4 == (match d case Clockwise => 1 case CounterClockwise => 3 case Half => 2)
    ensures target != r
  {
    match d
    case Clockwise => (r + 1) % 4
    case CounterClockwise => (r + 3) % 4
    case Half => (r + 2) % 4
  }

  /** Same type and position; new rotation state and the table's matrix for it. */
  function RotatePiece(p: Piece, d: Direction): (q: Piece)
    ensures q.kind == p.kind && q.position == p.position
    ensures q.rotation == TargetRotation(p.rotation, d)
    ensures WellShaped(q)
  {
    var r := TargetRotation(p.rotation, d);
    p.(rotation := r, shape := ShapeOf(p.kind, r))
  }

  /** Same type, matrix and rotation; position shifted by (dx, dy). */
  function MovePiece(p: Piece, dx: int, dy: int): (q: Piece)
    ensures q.kind == p.kind && q.shape == p.shape && q.rotation == p.rotation
    ensures q.position.x - p.position.x == dx && q.position.y - p.position.y == dy
  {
    p.(position := Position(p.position.x + dx, p.position.y + dy))
  }

  /** Four clockwise turns restore a well-shaped piece. */
  lemma FourTurnsRestore(p: Piece)
    requires WellShaped(p)
    ensures RotatePiece(RotatePiece(RotatePiece(RotatePiece(p, Clockwise), Clockwise), Clockwise), Clockwise) == p
  {
  }

  /** Clockwise and counterclockwise undo each other on a well-shaped piece. */
  lemma TurnsAreInverse(p: Piece)
    requires WellShaped(p)
    ensures RotatePiece(RotatePiece(p, Clockwise), CounterClockwise) == p
    ensures RotatePiece(RotatePiece(p, CounterClockwise), Clockwise) == p
  {
  }

  /** A half turn is two clockwise turns, and undoes itself. */
  lemma HalfTurn(p: Piece)
    ensures RotatePiece(p, Half) == RotatePiece(RotatePiece(p, Clockwise), Clockwise)
    ensures WellShaped(p) ==> RotatePiece(RotatePiece(p, Half), Half) == p
  {
  }

  /** Translations compose, and moving back undoes a move. */
  lemma MovesCompose(p: Piece, dx1: int, dy1: int, dx2: int, dy2: int)
    ensures MovePiece(MovePiece(p, dx1, dy1), dx2, dy2) == MovePiece(p, dx1 + dx2, dy1 + dy2)
    ensures MovePiece(MovePiece(p, dx1, dy1), -dx1, -dy1) == p
  {
  }

  // ---------------------------------------------------------------------------
  // Collision test
  // ---------------------------------------------------------------------------

  /**
   * A grid cell a piece cell may occupy: between the walls, above the floor,
   * and empty if it is on the board. Cells above the top (y < 0) are not read.
   */
  predicate CellFree(grid: Grid, x: int, y: int)
    requires IsGrid(grid)
  {
    0 <= x < GridWidth && y < GridHeight && (y >= 0 ==> grid[y][x] == 0)
  }

  /** Every occupied cell of the piece's matrix lands on a free cell. */
  ghost predicate IsValid(p: Piece, grid: Grid)
    requires IsGrid(grid)
  {
    forall sy, sx | 0 <= sy < |p.shape| && 0 <= sx < |p.shape[sy]| && p.shape[sy][sx] == 1 ::
      CellFree(grid, p.position.x + sx, p.position.y + sy)
  }

  /** isValidPosition: the nested scan with early exit decides IsValid. */
  method IsValidPosition(piece: Piece, grid: Grid) returns (valid: bool)
    requires IsGrid(grid)
    ensures valid == IsValid(piece, grid)
  {
    var shape := piece.shape;
    var y := 0;
    while y < |shape|
      invariant 0 <= y <= |shape|
      invariant forall sy, sx | 0 <= sy < y && 0 <= sx < |shape[sy]| && shape[sy][sx] == 1 ::
        CellFree(grid, piece.position.x + sx, piece.position.y + sy)
    {
      var x := 0;
      while x < |shape[y]|
        invariant 0 <= x <= |shape[y]|
        invariant forall sy, sx | 0 <= sy < y && 0 <= sx < |shape[sy]| && shape[sy][sx] == 1 ::
          CellFree(grid, piece.position.x + sx, piece.position.y + sy)
        invariant forall sx | 0 <= sx < x && shape[y][sx] == 1 ::
          CellFree(grid, piece.position.x + sx, piece.position.y + y)
      {
        if shape[y][x] == 1 {
          var newX := piece.position.x + x;
          var newY := piece.position.y + y;
          if newX < 0 || newX >= GridWidth || newY >= GridHeight {
            return false;
          }
          if newY >= 0 && grid[newY][newX] != 0 {
            return false;
          }
        }
        x := x + 1;
      }
      y := y + 1;
    }
    return true;
  }

  /** A valid piece with an occupied cell has its origin above the floor. */
  lemma ValidAboveFloor(p: Piece, grid: Grid)
    requires IsGrid(grid) && IsValid(p, grid) && HasCell(p.shape)
    ensures p.position.y < GridHeight
  {
    var sy, sx :| 0 <= sy < |p.shape| && 0 <= sx < |p.shape[sy]| && p.shape[sy][sx] == 1;
    assert CellFree(grid, p.position.x + sx, p.position.y + sy);
  }

  /**
   * Every piece fresh from the table fits at the spawn position of an empty
   * grid: matrices are at most 5 x 5, so the cells stay within columns 3..7
   * and rows 0..4.
   */
  lemma SpawnFitsEmptyGrid(t: PieceType)
    ensures IsValid(CreatePiece(t, SpawnPosition), CreateEmptyGrid())
  {
    var p := CreatePiece(t, SpawnPosition);
    CreatedIsPentomino(t, SpawnPosition);
    var g := CreateEmptyGrid();
    forall sy, sx | 0 <= sy < |p.shape| && 0 <= sx < |p.shape[sy]| && p.shape[sy][sx] == 1
      ensures CellFree(g, p.position.x + sx, p.position.y + sy)
    {
      assert sy < 5 && sx < 5;
      assert g[sy][3 + sx] == 0;
    }
  }

  // ---------------------------------------------------------------------------
  // Wall kicks
  // ---------------------------------------------------------------------------

  /** `SRS_KICK_TABLE[key] || []`: the key's offsets, or none for a key the table lacks. */
  function KicksFor(from: int, to: int): (ks: seq<KickData>)
    ensures IsKickKey(from, to) ==> ks == KickTable(from, to).value && |ks| == 5
    ensures !IsKickKey(from, to) ==> ks == []
  {
    match KickTable(from, to)
    case Some(ks) => ks
    case None => []
  }

  /**
   * The offsets tried, in order, after the unkicked rotation fails: the list
   * of the transition, or for a half turn the lists of both quarter turns it
   * passes through.
   */
  function KickCandidates(r: Rotation, d: Direction): seq<KickData>
  {
    match d
    case Half => KicksFor(r, (r + 1) % 4) + KicksFor((r + 1) % 4, (r + 2) % 4)
    case _ => KicksFor(r, TargetRotation(r, d))
  }

  /** Every transition tried has a table entry: five (or twice five) offsets, the first (0, 0). */
  lemma KickCandidatesShape(r: Rotation, d: Direction)
    ensures |KickCandidates(r, d)| == (if d == Half then 10 else 5)
    ensures KickCandidates(r, d)[0] == KickData(0, 0)
  {
  }

  /** The rotated piece placed at the original position plus an offset. */
  function Kicked(piece: Piece, rotated: Piece, k: KickData): (q: Piece)
    ensures q.kind == rotated.kind && q.shape == rotated.shape && q.rotation == rotated.rotation
    ensures q.position.x - piece.position.x == k.x && q.position.y - piece.position.y == k.y
  {
    rotated.(position := Position(piece.position.x + k.x, piece.position.y + k.y))
  }

  function KickedAll(piece: Piece, rotated: Piece, ks: seq<KickData>): (ps: seq<Piece>)
    ensures |ps| == |ks|
    ensures forall i | 0 <= i < |ks| :: ps[i] == Kicked(piece, rotated, ks[i])
  {
    seq(|ks|, i requires 0 <= i < |ks| => Kicked(piece, rotated, ks[i]))
  }

  lemma KickedAllAppend(piece: Piece, rotated: Piece, a: seq<KickData>, b: seq<KickData>)
    ensures KickedAll(piece, rotated, a + b) == KickedAll(piece, rotated, a) + KickedAll(piece, rotated, b)
  {
    assert forall i | 0 <= i < |a + b| :: (a + b)[i] == if i < |a| then a[i] else b[i - |a|];
  }

  /** Every placement tryRotateWithKicks tests, in the order it tests them. */
  ghost function Attempts(piece: Piece, d: Direction): seq<Piece>
  {
    var rotated := RotatePiece(piece, d);
    [rotated] + KickedAll(piece, rotated, KickCandidates(piece.rotation, d))
  }

  /**
   * `result` is the first valid entry of `cands`, or None when there is none.
   */
  ghost predicate FirstValid(cands: seq<Piece>, grid: Grid, result: Option<Piece>)
    requires IsGrid(grid)
  {
    match result
    case None => forall i | 0 <= i < |cands| :: !IsValid(cands[i], grid)
    case Some(p) =>
      exists i | 0 <= i < |cands| ::
        cands[i] == p && IsValid(p, grid) && forall j | 0 <= j < i :: !IsValid(cands[j], grid)
  }

  /** At most one result is the first valid candidate. */
  lemma FirstValidUnique(cands: seq<Piece>, grid: Grid, r1: Option<Piece>, r2: Option<Piece>)
    requires IsGrid(grid)
    requires FirstValid(cands, grid, r1) && FirstValid(cands, grid, r2)
    ensures r1 == r2
  {
    if r1.Some? && r2.Some? {
      var i1 :| 0 <= i1 < |cands| && cands[i1] == r1.value && IsValid(r1.value, grid) &&
        forall j | 0 <= j < i1 :: !IsValid(cands[j], grid);
      var i2 :| 0 <= i2 < |cands| && cands[i2] == r2.value && IsValid(r2.value, grid) &&
        forall j | 0 <= j < i2 :: !IsValid(cands[j], grid);
      assert i1 == i2;
    }
  }

  /** Searching a concatenation: the first list's winner, else the second's. */
  lemma FirstValidConcat(a: seq<Piece>, b: seq<Piece>, grid: Grid, ra: Option<Piece>, rb: Option<Piece>)
    requires IsGrid(grid)
    requires FirstValid(a, grid, ra)
    requires ra.None? ==> FirstValid(b, grid, rb)
    ensures FirstValid(a + b, grid, if ra.Some? then ra else rb)
  {
    if ra.Some? {
      var i :| 0 <= i < |a| && a[i] == ra.value && IsValid(ra.value, grid) &&
        forall j | 0 <= j < i :: !IsValid(a[j], grid);
      assert (a + b)[i] == a[i];
      assert forall j | 0 <= j < i :: (a + b)[j] == a[j];
    } else if rb.Some? {
      var i :| 0 <= i < |b| && b[i] == rb.value && IsValid(rb.value, grid) &&
        forall j | 0 <= j < i :: !IsValid(b[j], grid);
      assert (a + b)[|a| + i] == b[i];
      assert forall j | 0 <= j < |a| + i :: (a + b)[j] == if j < |a| then a[j] else b[j - |a|];
    } else {
      assert forall j | 0 <= j < |a + b| :: (a + b)[j] == if j < |a| then a[j] else b[j - |a|];
    }
  }

  /** One kick list, tried in order against the rotated matrix. */
  method TryKicks(piece: Piece, rotated: Piece, kicks: seq<KickData>, grid: Grid) returns (result: Option<Piece>)
    requires IsGrid(grid)
    ensures FirstValid(KickedAll(piece, rotated, kicks), grid, result)
  {
    var i := 0;
    while i < |kicks|
      invariant 0 <= i <= |kicks|
      invariant forall j | 0 <= j < i :: !IsValid(Kicked(piece, rotated, kicks[j]), grid)
    {
      var testPiece := Kicked(piece, rotated, kicks[i]);
      var ok := IsValidPosition(testPiece, grid);
      if ok {
        assert KickedAll(piece, rotated, kicks)[i] == testPiece;
        return Some(testPiece);
      }
      i := i + 1;
    }
    return None;
  }

  /**
   * tryRotateWithKicks: the unkicked rotation if it fits, else the first
   * kicked placement that fits, else None.
   */
  method TryRotateWithKicks(piece: Piece, d: Direction, grid: Grid) returns (result: Option<Piece>)
    requires IsGrid(grid)
    ensures FirstValid(Attempts(piece, d), grid, result)
  {
    var rotatedPiece := RotatePiece(piece, d);
    var r: int := piece.rotation;
    var valid := IsValidPosition(rotatedPiece, grid);
    if valid {
      result := Some(rotatedPiece);
      assert Attempts(piece, d)[0] == rotatedPiece;
      return;
    }
    assert FirstValid([rotatedPiece], grid, None);
    if d == Half {
      var kicks1 := KicksFor(r, (r + 1) % 4);
      var kicks2 := KicksFor((r + 1) % 4, rotatedPiece.rotation);
      var first := TryKicks(piece, rotatedPiece, kicks1, grid);
      var second: Option<Piece> := None;
      if first.None? {
        second := TryKicks(piece, rotatedPiece, kicks2, grid);
      }
      FirstValidConcat(KickedAll(piece, rotatedPiece, kicks1), KickedAll(piece, rotatedPiece, kicks2), grid, first, second);
      KickedAllAppend(piece, rotatedPiece, kicks1, kicks2);
      assert KickCandidates(r, d) == kicks1 + kicks2;
      result := if first.Some? then first else second;
    } else {
      var kicks := KicksFor(r, rotatedPiece.rotation);
      result := TryKicks(piece, rotatedPiece, kicks, grid);
      assert KickCandidates(r, d) == kicks;
    }
    FirstValidConcat([rotatedPiece], KickedAll(piece, rotatedPiece, KickCandidates(r, d)), grid, None, result);
  }

  /**
   * What a successful rotation yields: a valid piece with the rotated
   * matrix and rotation state, at the original position plus one of the
   * candidate offsets. When the unkicked rotation fits, it is the result.
   */
  lemma RotationResult(piece: Piece, d: Direction, grid: Grid, result: Option<Piece>)
    requires IsGrid(grid)
    requires FirstValid(Attempts(piece, d), grid, result)
    ensures result.Some? ==>
      var q := result.value;
      IsValid(q, grid) && q.kind == piece.kind && q.rotation == TargetRotation(piece.rotation, d) && WellShaped(q) &&
      exists k | k in KickCandidates(piece.rotation, d) ::
        q.position == Position(piece.position.x + k.x, piece.position.y + k.y)
    ensures IsValid(RotatePiece(piece, d), grid) ==> result == Some(RotatePiece(piece, d))
    ensures result.None? ==> !IsValid(RotatePiece(piece, d), grid)
  {
    var attempts := Attempts(piece, d);
    var cands := KickCandidates(piece.rotation, d);
    KickCandidatesShape(piece.rotation, d);
    assert attempts[0] == RotatePiece(piece, d);
    if IsValid(RotatePiece(piece, d), grid) {
      FirstValidUnique(attempts, grid, result, Some(attempts[0]));
    }
    if result.Some? {
      var i :| 0 <= i < |attempts| && attempts[i] == result.value && IsValid(result.value, grid);
      var k := if i == 0 then cands[0] else cands[i - 1];
      assert k in cands;
      assert result.value.position == Position(piece.position.x + k.x, piece.position.y + k.y);
    }
  }

  // ---------------------------------------------------------------------------
  // Stamping a piece
  // ---------------------------------------------------------------------------

  /** The piece has an occupied matrix cell over grid cell (x, y). */
  predicate Covers(p: Piece, x: int, y: int)
  {
    var sy, sx := y - p.position.y, x - p.position.x;
    0 <= sy < |p.shape| && 0 <= sx < |p.shape[sy]| && p.shape[sy][sx] == 1
  }

  /** The occupancy grid with every on-board cell the piece covers set to 1. */
  ghost function Placed(p: Piece, grid: Grid): (g: Grid)
    requires IsGrid(grid)
    ensures IsGrid(g)
  {
    seq(GridHeight, y requires 0 <= y < GridHeight =>
      seq(GridWidth, x requires 0 <= x < GridWidth => if Covers(p, x, y) then 1 else grid[y][x]))
  }

  /** The identity grid with every on-board cell the piece covers naming its type. */
  ghost function PlacedIds(p: Piece, pieceGrid: PieceGrid): (g: PieceGrid)
    requires IsGrid(pieceGrid)
    ensures IsGrid(g)
  {
    seq(GridHeight, y requires 0 <= y < GridHeight =>
      seq(GridWidth, x requires 0 <= x < GridWidth => if Covers(p, x, y) then Some(p.kind) else pieceGrid[y][x]))
  }

  /**
   * placePiece: copies of both grids with the piece's occupied in-range cells
   * written; cells off the board are skipped.
   */
  method PlacePiece(piece: Piece, grid: Grid, pieceGrid: PieceGrid) returns (newGrid: Grid, newPieceGrid: PieceGrid)
    requires IsGrid(grid) && IsGrid(pieceGrid)
    ensures newGrid == Placed(piece, grid)
    ensures newPieceGrid == PlacedIds(piece, pieceGrid)
  {
    newGrid := grid;
    newPieceGrid := pieceGrid;
    var shape := piece.shape;
    var px, py := piece.position.x, piece.position.y;
    var y := 0;
    while y < |shape|
      invariant 0 <= y <= |shape|
      invariant IsGrid(newGrid) && IsGrid(newPieceGrid)
      invariant forall gy, gx | 0 <= gy < GridHeight && 0 <= gx < GridWidth ::
        newGrid[gy][gx] == (if Covers(piece, gx, gy) && gy - py < y then 1 else grid[gy][gx]) &&
        newPieceGrid[gy][gx] == (if Covers(piece, gx, gy) && gy - py < y then Some(piece.kind) else pieceGrid[gy][gx])
    {
      var x := 0;
      while x < |shape[y]|
        invariant 0 <= x <= |shape[y]|
        invariant IsGrid(newGrid) && IsGrid(newPieceGrid)
        invariant forall gy, gx | 0 <= gy < GridHeight && 0 <= gx < GridWidth ::
          var done := Covers(piece, gx, gy) && (gy - py < y || (gy - py == y && gx - px < x));
          newGrid[gy][gx] == (if done then 1 else grid[gy][gx]) &&
          newPieceGrid[gy][gx] == (if done then Some(piece.kind) else pieceGrid[gy][gx])
      {
        if shape[y][x] == 1 {
          var newX := px + x;
          var newY := py + y;
          if newY >= 0 && newY < GridHeight && newX >= 0 && newX < GridWidth {
            newGrid := newGrid[newY := newGrid[newY][newX := 1]];
            newPieceGrid := newPieceGrid[newY := newPieceGrid[newY][newX := Some(piece.kind)]];
          }
        }
        x := x + 1;
      }
      y := y + 1;
    }
    forall gy | 0 <= gy < GridHeight
      ensures newGrid[gy] == Placed(piece, grid)[gy] && newPieceGrid[gy] == PlacedIds(piece, pieceGrid)[gy]
    {
      assert forall gx | 0 <= gx < GridWidth :: Covers(piece, gx, gy) ==> gy - py < y;
    }
  }

  /** Stamping a piece keeps the two grids a consistent board. */
  lemma PlacedKeepsBoard(p: Piece, grid: Grid, pieceGrid: PieceGrid)
    requires IsBoard(grid, pieceGrid)
    ensures IsGrid(grid) && IsGrid(pieceGrid)
    ensures IsBoard(Placed(p, grid), PlacedIds(p, pieceGrid))
  {
    BoardIsGrid(grid, pieceGrid);
    var g, ids := Placed(p, grid), PlacedIds(p, pieceGrid);
    forall y | 0 <= y < GridHeight ensures RowConsistent(g[y], ids[y]) {
      assert RowConsistent(grid[y], pieceGrid[y]);
    }
  }

  /** Cells the piece does not cover are untouched; covered on-board cells are filled. */
  lemma PlacedCells(p: Piece, grid: Grid, x: int, y: int)
    requires IsGrid(grid)
    requires 0 <= x < GridWidth && 0 <= y < GridHeight
    ensures Placed(p, grid)[y][x] == (if Covers(p, x, y) then 1 else grid[y][x])
    ensures Covers(p, x, y) ==> Placed(p, grid)[y][x] != 0
  {
  }

  // ---------------------------------------------------------------------------
  // Line clearing
  // ---------------------------------------------------------------------------

  /** `row.every(cell => cell !== 0)`. */
  predicate IsFull(row: seq<int>)
  {
    forall c | 0 <= c < |row| :: row[c] != 0
  }

  /** Number of full rows. */
  function CountFull(rows: Grid): (n: nat)
    ensures n <= |rows|
  {
    if rows == [] then 0
    else CountFull(rows[..|rows| - 1]) + (if IsFull(rows[|rows| - 1]) then 1 else 0)
  }

  /** The count is zero exactly when no row is full, and all rows exactly when every row is. */
  lemma {:induction false} CountFullBounds(rows: Grid)
    ensures CountFull(rows) == 0 <==> forall i | 0 <= i < |rows| :: !IsFull(rows[i])
    ensures CountFull(rows) == |rows| <==> forall i | 0 <= i < |rows| :: IsFull(rows[i])
  {
    if rows != [] {
      var k := |rows| - 1;
      assert forall i | 0 <= i < k :: rows[..k][i] == rows[i];
      CountFullBounds(rows[..k]);
    }
  }

  /**
   * The entries of `s` at the indices where `rows` has a row that is not
   * full, in their original order.
   */
  function Surviving<C>(s: seq<C>, rows: Grid): seq<C>
    requires |s| == |rows|
  {
    if s == [] then []
    else Surviving(s[..|s| - 1], rows[..|rows| - 1]) + (if IsFull(rows[|rows| - 1]) then [] else [s[|s| - 1]])
  }

  /** The occupancy grid after clearing: empty rows on top, the rest in order. */
  ghost function Cleared(grid: Grid): Grid
  {
    BlankRows(CountFull(grid), 0) + Surviving(grid, grid)
  }

  /** The identity grid after clearing the rows that are full in `grid`. */
  ghost function ClearedIds(pieceGrid: PieceGrid, grid: Grid): PieceGrid
    requires |pieceGrid| == |grid|
  {
    BlankRows(CountFull(grid), None) + Surviving(pieceGrid, grid)
  }

  /**
   * `filter((_, index) => !fullLines.includes(index))`: never longer than the
   * input, and the input itself when no index of it is dropped.
   */
  function WithoutIndices<C>(s: seq<C>, drop: seq<int>): (r: seq<C>)
    ensures |r| <= |s|
    ensures (forall i | 0 <= i < |s| :: i !in drop) ==> r == s
  {
    if s == [] then []
    else
      var k := |s| - 1;
      assert s == s[..k] + [s[k]];
      WithoutIndices(s[..k], drop) + (if k in drop then [] else [s[k]])
  }

  /** Filtering out the indices of the full rows keeps exactly the surviving entries. */
  lemma {:induction false} WithoutFullRows<C>(s: seq<C>, rows: Grid, drop: seq<int>)
    requires |s| == |rows|
    requires forall i | 0 <= i < |rows| :: i in drop <==> IsFull(rows[i])
    ensures WithoutIndices(s, drop) == Surviving(s, rows)
  {
    if s != [] {
      var k := |s| - 1;
      assert forall i | 0 <= i < |rows[..k]| :: rows[..k][i] == rows[i];
      WithoutFullRows(s[..k], rows[..k], drop);
    }
  }

  /** As many entries survive as there are rows that are not full. */
  lemma {:induction false} SurvivingLength<C>(s: seq<C>, rows: Grid)
    requires |s| == |rows|
    ensures |Surviving(s, rows)| + CountFull(rows) == |rows|
  {
    if s != [] {
      SurvivingLength(s[..|s| - 1], rows[..|rows| - 1]);
    }
  }

  /** No surviving row of the grid is full. */
  lemma {:induction false} SurvivorsNotFull(rows: Grid)
    ensures forall i | 0 <= i < |Surviving(rows, rows)| :: !IsFull(Surviving(rows, rows)[i])
  {
    if rows != [] {
      SurvivorsNotFull(rows[..|rows| - 1]);
    }
  }

  /** Surviving rows of the grid and of its identity grid stay paired. */
  lemma {:induction false} SurvivorsConsistent(grid: Grid, pieceGrid: PieceGrid)
    requires |grid| == |pieceGrid|
    requires forall y | 0 <= y < |grid| :: RowConsistent(grid[y], pieceGrid[y])
    ensures |Surviving(grid, grid)| == |Surviving(pieceGrid, grid)|
    ensures forall y | 0 <= y < |Surviving(grid, grid)| ::
      RowConsistent(Surviving(grid, grid)[y], Surviving(pieceGrid, grid)[y])
  {
    SurvivingLength(grid, grid);
    SurvivingLength(pieceGrid, grid);
    if grid != [] {
      var k := |grid| - 1;
      SurvivorsConsistent(grid[..k], pieceGrid[..k]);
    }
  }

  /** When no row is full, nothing is removed. */
  lemma {:induction false} NothingFullSurvives<C>(s: seq<C>, rows: Grid)
    requires |s| == |rows|
    requires CountFull(rows) == 0
    ensures Surviving(s, rows) == s
  {
    if s != [] {
      var k := |s| - 1;
      NothingFullSurvives(s[..k], rows[..k]);
      assert s == s[..k] + [s[k]];
    }
  }

  /** Clearing keeps a consistent board of GridHeight rows, none of them full below the new empty ones. */
  lemma ClearedKeepsBoard(grid: Grid, pieceGrid: PieceGrid)
    requires IsBoard(grid, pieceGrid)
    ensures IsBoard(Cleared(grid), ClearedIds(pieceGrid, grid))
    ensures forall y, x | 0 <= y < CountFull(grid) && 0 <= x < GridWidth ::
      Cleared(grid)[y][x] == 0 && ClearedIds(pieceGrid, grid)[y][x] == None
    ensures forall y | CountFull(grid) <= y < GridHeight :: !IsFull(Cleared(grid)[y])
  {
    var n := CountFull(grid);
    SurvivorsConsistent(grid, pieceGrid);
    SurvivingLength(grid, grid);
    SurvivorsNotFull(grid);
    var g, ids := Cleared(grid), ClearedIds(pieceGrid, grid);
    forall y | 0 <= y < GridHeight ensures RowConsistent(g[y], ids[y]) {
      if y < n {
        assert forall x | 0 <= x < GridWidth :: g[y][x] == 0 && ids[y][x] == None;
      } else {
        assert g[y] == Surviving(grid, grid)[y - n];
        assert ids[y] == Surviving(pieceGrid, grid)[y - n];
      }
    }
    forall y | n <= y < GridHeight ensures !IsFull(g[y]) {
      assert g[y] == Surviving(grid, grid)[y - n];
    }
  }

  /**
   * clearLines: scan the rows top to bottom for full ones, then remove them
   * all at once from both grids and put as many empty rows on top.
   */
  method ClearLines(grid: Grid, pieceGrid: PieceGrid) returns (newGrid: Grid, newPieceGrid: PieceGrid, linesCleared: nat)
    requires IsGrid(grid) && IsGrid(pieceGrid)
    ensures linesCleared == CountFull(grid)
    ensures newGrid == Cleared(grid)
    ensures newPieceGrid == ClearedIds(pieceGrid, grid)
    ensures linesCleared == 0 ==> newGrid == grid && newPieceGrid == pieceGrid
  {
    var fullLines: seq<int> := [];
    for y := 0 to GridHeight
      invariant |fullLines| == CountFull(grid[..y])
      invariant forall i :: i in fullLines <==> 0 <= i < y && IsFull(grid[i])
    {
      assert grid[..y + 1][..y] == grid[..y];
      if forall c | 0 <= c < |grid[y]| :: grid[y][c] != 0 {
        fullLines := fullLines + [y];
      }
    }
    assert grid[..GridHeight] == grid;
    if |fullLines| == 0 {
      NothingFullSurvives(grid, grid);
      NothingFullSurvives(pieceGrid, grid);
      return grid, pieceGrid, 0;
    }
    WithoutFullRows(grid, grid, fullLines);
    WithoutFullRows(pieceGrid, grid, fullLines);
    var keptGrid := WithoutIndices(grid, fullLines);
    var keptPieceGrid := WithoutIndices(pieceGrid, fullLines);
    newGrid := BlankRows(|fullLines|, 0) + keptGrid;
    newPieceGrid := BlankRows(|fullLines|, None) + keptPieceGrid;
    linesCleared := |fullLines|;
  }

  // ---------------------------------------------------------------------------
  // Score
  // ---------------------------------------------------------------------------

  /** Base points by lines cleared at once: 0, 1, 2, 3, 4, 5. */
  const BaseScores: seq<int> := [0, 40, 100, 300, 1200, 2000]

  /**
   * calculateScore: `(baseScores[Math.min(linesCleared, 5)] || 2000) * level`.
   * A base of 0 (no lines) and an index outside the table (negative counts)
   * are both falsy in the source, so both fall back to 2000.
   */
  function CalculateScore(linesCleared: int, level: int): (points: int)
    ensures level >= 0 ==> 40 * level <= points <= 2000 * level
  {
    var i := if linesCleared < 5 then linesCleared else 5;
    var base := if 0 <= i < |BaseScores| && BaseScores[i] != 0 then BaseScores[i] else 2000;
    base * level
  }

  /** The score table, tier by tier, including the 2000 fallback for zero lines. */
  lemma ScoreTable(linesCleared: int, level: int)
    ensures CalculateScore(linesCleared, level) == level * (
      if linesCleared == 1 then 40
      else if linesCleared == 2 then 100
      else if linesCleared == 3 then 300
      else if linesCleared == 4 then 1200
      else 2000)
  {
  }

  // ---------------------------------------------------------------------------
  // Drop projection
  // ---------------------------------------------------------------------------

  /** The piece moved to row y, nothing else changed. */
  function AtRow(p: Piece, y: int): (q: Piece)
    ensures q.kind == p.kind && q.shape == p.shape && q.rotation == p.rotation
    ensures q.position == Position(p.position.x, y)
    ensures y == p.position.y ==> q == p
    ensures q == MovePiece(p, 0, y - p.position.y)
  {
    p.(position := p.position.(y := y))
  }

  /**
   * dropY is where the piece comes to rest: at or below its row, every row
   * passed on the way down is valid, and one row further is not.
   */
  ghost predicate RestsAt(p: Piece, grid: Grid, dropY: int)
    requires IsGrid(grid)
  {
    dropY >= p.position.y &&
    !IsValid(AtRow(p, dropY + 1), grid) &&
    forall k | p.position.y < k <= dropY :: IsValid(AtRow(p, k), grid)
  }

  /** There is one resting row. */
  lemma RestsAtUnique(p: Piece, grid: Grid, a: int, b: int)
    requires IsGrid(grid) && RestsAt(p, grid, a) && RestsAt(p, grid, b)
    ensures a == b
  {
  }

  /**
   * getDropPosition: probe one row lower while that stays valid. A matrix
   * with an occupied cell hits the floor, so the search ends.
   */
  method GetDropPosition(piece: Piece, grid: Grid) returns (dropY: int)
    requires IsGrid(grid) && HasCell(piece.shape)
    ensures RestsAt(piece, grid, dropY)
  {
    dropY := piece.position.y;
    while true
      invariant dropY >= piece.position.y
      invariant forall k | piece.position.y < k <= dropY :: IsValid(AtRow(piece, k), grid)
      decreases GridHeight - dropY
    {
      var below := IsValidPosition(AtRow(piece, dropY + 1), grid);
      if !below {
        break;
      }
      ValidAboveFloor(AtRow(piece, dropY + 1), grid);
      dropY := dropY + 1;
    }
  }

  /** getGhostPiece: the piece at its resting row; only y changes. */
  method GetGhostPiece(piece: Piece, grid: Grid) returns (ghostPiece: Piece)
    requires IsGrid(grid) && HasCell(piece.shape)
    ensures ghostPiece.kind == piece.kind && ghostPiece.shape == piece.shape
    ensures ghostPiece.rotation == piece.rotation && ghostPiece.position.x == piece.position.x
    ensures RestsAt(piece, grid, ghostPiece.position.y)
  {
    var dropY := GetDropPosition(piece, grid);
    ghostPiece := AtRow(piece, dropY);
  }

  /** A piece that is valid where it is stays valid all the way down to its resting row. */
  lemma DropPathValid(p: Piece, grid: Grid, dropY: int, k: int)
    requires IsGrid(grid) && IsValid(p, grid) && RestsAt(p, grid, dropY)
    requires p.position.y <= k <= dropY
    ensures IsValid(AtRow(p, k), grid)
  {
    if k == p.position.y {
      assert AtRow(p, k) == p;
    }
  }
}
