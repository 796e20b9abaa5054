// Types and constant tables of the pentomino game (src/types/pentomino.ts):
// the twelve piece types, positions, pieces, the session state record, the
// SRS wall-kick table and the 48 shape matrices.

module Pentomino {

  /** `T | null` in the source. */
  datatype Option<T> = None | Some(value: T)

  /** The twelve pentomino identifiers. */
  datatype PieceType = I | P | U | V | W | X | Y | Z | F | T | L | N

  /** A board coordinate; y grows downward. */
  datatype Position = Position(x: int, y: int)

  /** One wall-kick offset of the SRS table. */
  datatype KickData = KickData(x: int, y: int)

  /** A rotation state of a piece: 0, 90, 180 or 270 degrees. */
  type Rotation = r: int | 0 <= r < 4

  /** A shape matrix: rows of 0/1 cells. */
  type Shape = seq<seq<int>>

  /** A falling piece. The source's field `type` is called `kind` here. */
  datatype Piece = Piece(kind: PieceType, shape: Shape, position: Position, rotation: Rotation)

  /** Occupancy grid (0 = empty) and the parallel piece-identity grid. */
  type Grid = seq<seq<int>>
  type PieceGrid = seq<seq<Option<PieceType>>>

  /**
   * The session record. The declared interface has no `pieceGrid`, but every
   * use of the record carries one, so it is a field here.
   */
  datatype GameState = GameState(
    grid: Grid,
    pieceGrid: PieceGrid,
    currentPiece: Option<Piece>,
    nextPieces: seq<PieceType>,
    holdPiece: Option<PieceType>,
    canHold: bool,
    score: int,
    lines: int,
    level: int,
    gameOver: bool,
    isPaused: bool)

  // ---------------------------------------------------------------------------
  // SRS kick table
  // ---------------------------------------------------------------------------

  /** The eight keys: one quarter turn either way between states 0..3. */
  predicate IsKickKey(from: int, to: int)
  {
    0 <= from < 4 && 0 <= to < 4 && (to == (from + 1) % 4 || from == (to + 1) % 4)
  }

  /**
   * The kick table, keyed by the transition "from->to". It holds exactly the
   * eight quarter-turn keys, each with five offsets of which the first is the
   * unkicked (0, 0); any other key reads as `None` (the source's `undefined`).
   */
  function KickTable(from: int, to: int): (ks: Option<seq<KickData>>)
    ensures ks.Some? <==> IsKickKey(from, to)
    ensures ks.Some? ==> |ks.value| == 5 && ks.value[0] == KickData(0, 0)
  {
    if from == 0 && to == 1 then
      Some([KickData(0, 0), KickData(-1, 0), KickData(-1, 1), KickData(0, -2), KickData(-1, -2)])
    else if from == 1 && to == 0 then
      Some([KickData(0, 0), KickData(1, 0), KickData(1, -1), KickData(0, 2), KickData(1, 2)])
    else if from == 1 && to == 2 then
      Some([KickData(0, 0), KickData(1, 0), KickData(1, -1), KickData(0, 2), KickData(1, 2)])
    else if from == 2 && to == 1 then
      Some([KickData(0, 0), KickData(-1, 0), KickData(-1, 1), KickData(0, -2), KickData(-1, -2)])
    else if from == 2 && to == 3 then
      Some([KickData(0, 0), KickData(1, 0), KickData(1, 1), KickData(0, -2), KickData(1, -2)])
    else if from == 3 && to == 2 then
      Some([KickData(0, 0), KickData(-1, 0), KickData(-1, -1), KickData(0, 2), KickData(-1, 2)])
    else if from == 3 && to == 0 then
      Some([KickData(0, 0), KickData(-1, 0), KickData(-1, -1), KickData(0, 2), KickData(-1, 2)])
    else if from == 0 && to == 3 then
      Some([KickData(0, 0), KickData(1, 0), KickData(1, 1), KickData(0, -2), KickData(1, -2)])
    else
      None
  }

  /** Every offset of a list negated. */
  function Negated(ks: seq<KickData>): (r: seq<KickData>)
    ensures |r| == |ks|
    ensures forall i | 0 <= i < |ks| :: r[i] == KickData(-ks[i].x, -ks[i].y)
  {
    seq(|ks|, i requires 0 <= i < |ks| => KickData(-ks[i].x, -ks[i].y))
  }

  /** The offsets of b->a are those of a->b negated, entry by entry. */
  lemma KickTableSymmetric(from: int, to: int)
    requires KickTable(from, to).Some?
    ensures KickTable(to, from).Some?
    ensures KickTable(to, from).value == Negated(KickTable(from, to).value)
  {
    var ks, back := KickTable(from, to).value, KickTable(to, from).value;
    assert |back| == |ks| == 5;
    assert forall i | 0 <= i < 5 :: back[i] == Negated(ks)[i];
  }

  // ---------------------------------------------------------------------------
  // Shape table
  // ---------------------------------------------------------------------------

  /** The four rotation matrices of a piece type, cell for cell. */
  function Shapes(t: PieceType): (rs: seq<Shape>)
    ensures |rs| == 4
  {
    match t
    case I => ShapesI()
    case P => ShapesP()
    case U => ShapesU()
    case V => ShapesV()
    case W => ShapesW()
    case X => ShapesX()
    case Y => ShapesY()
    case Z => ShapesZ()
    case F => ShapesF()
    case T => ShapesT()
    case L => ShapesL()
    case N => ShapesN()
  }

  function ShapesI(): seq<Shape>
  {
    [
      [[1, 1, 1, 1, 1]],
      [[1], [1], [1], [1], [1]],
      [[1, 1, 1, 1, 1]],
      [[1], [1], [1], [1], [1]]]
  }

  function ShapesP(): seq<Shape>
  {
    [
      [[1, 1], [1, 1], [1, 0]],
      [[1, 1, 1], [0, 1, 1]],
      [[0, 1], [1, 1], [1, 1]],
      [[1, 1, 0], [1, 1, 1]]]
  }

  function ShapesU(): seq<Shape>
  {
    [
      [[1, 0, 1], [1, 1, 1]],
      [[1, 1], [1, 0], [1, 1]],
      [[1, 1, 1], [1, 0, 1]],
      [[1, 1], [0, 1], [1, 1]]]
  }

  function ShapesV(): seq<Shape>
  {
    [
      [[1, 0, 0], [1, 0, 0], [1, 1, 1]],
      [[1, 1, 1], [1, 0, 0], [1, 0, 0]],
      [[1, 1, 1], [0, 0, 1], [0, 0, 1]],
      [[0, 0, 1], [0, 0, 1], [1, 1, 1]]]
  }

  function ShapesW(): seq<Shape>
  {
    [
      [[1, 0, 0], [1, 1, 0], [0, 1, 1]],
      [[0, 1, 1], [1, 1, 0], [1, 0, 0]],
      [[1, 1, 0], [0, 1, 1], [0, 0, 1]],
      [[0, 0, 1], [0, 1, 1], [1, 1, 0]]]
  }

  function ShapesX(): seq<Shape>
  {
    [
      [[0, 1, 0], [1, 1, 1], [0, 1, 0]],
      [[0, 1, 0], [1, 1, 1], [0, 1, 0]],
      [[0, 1, 0], [1, 1, 1], [0, 1, 0]],
      [[0, 1, 0], [1, 1, 1], [0, 1, 0]]]
  }

  function ShapesY(): seq<Shape>
  {
    [
      [[0, 1, 0, 0], [1, 1, 1, 1]],
      [[1, 0], [1, 1], [1, 0], [1, 0]],
      [[1, 1, 1, 1], [0, 1, 0, 0]],
      [[0, 1], [0, 1], [1, 1], [0, 1]]]
  }

  function ShapesZ(): seq<Shape>
  {
    [
      [[1, 1, 0], [0, 1, 0], [0, 1, 1]],
      [[0, 0, 1], [1, 1, 1], [1, 0, 0]],
      [[1, 1, 0], [0, 1, 0], [0, 1, 1]],
      [[0, 0, 1], [1, 1, 1], [1, 0, 0]]]
  }

  function ShapesF(): seq<Shape>
  {
    [
      [[0, 1, 1], [1, 1, 0], [0, 1, 0]],
      [[1, 0, 0], [1, 1, 1], [0, 1, 0]],
      [[0, 1, 0], [0, 1, 1], [1, 1, 0]],
      [[0, 1, 0], [1, 1, 1], [0, 0, 1]]]
  }

  function ShapesT(): seq<Shape>
  {
    [
      [[1, 1, 1], [0, 1, 0], [0, 1, 0]],
      [[0, 0, 1], [1, 1, 1], [0, 0, 1]],
      [[0, 1, 0], [0, 1, 0], [1, 1, 1]],
      [[1, 0, 0], [1, 1, 1], [1, 0, 0]]]
  }

  function ShapesL(): seq<Shape>
  {
    [
      [[1, 0, 0, 0], [1, 1, 1, 1]],
      [[1, 1], [1, 0], [1, 0], [1, 0]],
      [[1, 1, 1, 1], [0, 0, 0, 1]],
      [[0, 1], [0, 1], [0, 1], [1, 1]]]
  }

  function ShapesN(): seq<Shape>
  {
    [
      [[0, 1, 0, 0], [1, 1, 1, 1]],
      [[1, 0], [1, 1], [0, 1], [0, 1]],
      [[1, 1, 1, 1], [0, 0, 1, 0]],
      [[1, 0], [1, 0], [1, 1], [0, 1]]]
  }

  /** The matrix of a piece type at one rotation state. */
  function ShapeOf(t: PieceType, r: Rotation): Shape
  {
    Shapes(t)[r]
  }

  /** Number of cells equal to 1 among the first n cells of a row. */
  function RowCells(row: seq<int>, n: nat): nat
    requires n <= |row|
  {
    if n == 0 then 0 else RowCells(row, n - 1) + (if row[n - 1] == 1 then 1 else 0)
  }

  /** Number of cells equal to 1 in the first n rows of a matrix. */
  function RowsCells(s: Shape, n: nat): nat
    requires n <= |s|
  {
    if n == 0 then 0 else RowsCells(s, n - 1) + RowCells(s[n - 1], |s[n - 1]|)
  }

  /** Number of cells equal to 1 in a matrix. */
  function CellCount(s: Shape): nat
  {
    RowsCells(s, |s|)
  }

  /** A rectangular 0/1 matrix of at most 5 x 5 cells with at least one row. */
  predicate WellFormedShape(s: Shape)
  {
    1 <= |s| <= 5 &&
    (forall r | 0 <= r < |s| :: 1 <= |s[r]| <= 5 && |s[r]| == |s[0]|) &&
    (forall r, c | 0 <= r < |s| && 0 <= c < |s[r]| :: s[r][c] == 0 || s[r][c] == 1)
  }

  /** Some cell of the matrix is occupied. */
  predicate HasCell(s: Shape)
  {
    exists r, c | 0 <= r < |s| && 0 <= c < |s[r]| :: s[r][c] == 1
  }

  lemma {:induction false} RowCellsPositive(row: seq<int>, n: nat) returns (c: nat)
    requires n <= |row| && RowCells(row, n) > 0
    ensures c < n && row[c] == 1
  {
    if row[n - 1] == 1 {
      c := n - 1;
    } else {
      c := RowCellsPositive(row, n - 1);
    }
  }

  lemma {:induction false} RowsCellsPositive(s: Shape, n: nat) returns (r: nat, c: nat)
    requires n <= |s| && RowsCells(s, n) > 0
    ensures r < n && c < |s[r]| && s[r][c] == 1
  {
    if RowCells(s[n - 1], |s[n - 1]|) > 0 {
      r := n - 1;
      c := RowCellsPositive(s[n - 1], |s[n - 1]|);
    } else {
      r, c := RowsCellsPositive(s, n - 1);
    }
  }

  /** A matrix with a positive cell count has an occupied cell. */
  lemma CellCountPositive(s: Shape)
    requires CellCount(s) > 0
    ensures HasCell(s)
  {
    var r, c := RowsCellsPositive(s, |s|);
  }

  /**
   * The matrices of one type: the one at rotation r has five occupied cells
   * (evaluated from the literal once its dimensions are known), and all four
   * are well formed. One lemma per type keeps each proof small.
   */
  lemma ShapesOfI(r: Rotation)
    ensures CellCount(ShapesI()[r]) == 5
    ensures forall i | 0 <= i < 4 :: WellFormedShape(ShapesI()[i])
  {
    match r {
      case 0 => assert |ShapesI()[0]| == 1 && |ShapesI()[0][0]| == 5;
      case 1 => assert |ShapesI()[1]| == 5 && |ShapesI()[1][0]| == 1 && |ShapesI()[1][1]| == 1 && |ShapesI()[1][2]| == 1 && |ShapesI()[1][3]| == 1 && |ShapesI()[1][4]| == 1;
      case 2 => assert |ShapesI()[2]| == 1 && |ShapesI()[2][0]| == 5;
      case 3 => assert |ShapesI()[3]| == 5 && |ShapesI()[3][0]| == 1 && |ShapesI()[3][1]| == 1 && |ShapesI()[3][2]| == 1 && |ShapesI()[3][3]| == 1 && |ShapesI()[3][4]| == 1;
    }
  }

  lemma ShapesOfP(r: Rotation)
    ensures CellCount(ShapesP()[r]) == 5
    ensures forall i | 0 <= i < 4 :: WellFormedShape(ShapesP()[i])
  {
    match r {
      case 0 => assert |ShapesP()[0]| == 3 && |ShapesP()[0][0]| == 2 && |ShapesP()[0][1]| == 2 && |ShapesP()[0][2]| == 2;
      case 1 => assert |ShapesP()[1]| == 2 && |ShapesP()[1][0]| == 3 && |ShapesP()[1][1]| == 3;
      case 2 => assert |ShapesP()[2]| == 3 && |ShapesP()[2][0]| == 2 && |ShapesP()[2][1]| == 2 && |ShapesP()[2][2]| == 2;
      case 3 => assert |ShapesP()[3]| == 2 && |ShapesP()[3][0]| == 3 && |ShapesP()[3][1]| == 3;
    }
  }

  lemma ShapesOfU(r: Rotation)
    ensures CellCount(ShapesU()[r]) == 5
    ensures forall i | 0 <= i < 4 :: WellFormedShape(ShapesU()[i])
  {
    match r {
      case 0 => assert |ShapesU()[0]| == 2 && |ShapesU()[0][0]| == 3 && |ShapesU()[0][1]| == 3;
      case 1 => assert |ShapesU()[1]| == 3 && |ShapesU()[1][0]| == 2 && |ShapesU()[1][1]| == 2 && |ShapesU()[1][2]| == 2;
      case 2 => assert |ShapesU()[2]| == 2 && |ShapesU()[2][0]| == 3 && |ShapesU()[2][1]| == 3;
      case 3 => assert |ShapesU()[3]| == 3 && |ShapesU()[3][0]| == 2 && |ShapesU()[3][1]| == 2 && |ShapesU()[3][2]| == 2;
    }
  }

  lemma ShapesOfV(r: Rotation)
    ensures CellCount(ShapesV()[r]) == 5
    ensures forall i | 0 <= i < 4 :: WellFormedShape(ShapesV()[i])
  {
    match r {
      case 0 => assert |ShapesV()[0]| == 3 && |ShapesV()[0][0]| == 3 && |ShapesV()[0][1]| == 3 && |ShapesV()[0][2]| == 3;
      case 1 => assert |ShapesV()[1]| == 3 && |ShapesV()[1][0]| == 3 && |ShapesV()[1][1]| == 3 && |ShapesV()[1][2]| == 3;
      case 2 => assert |ShapesV()[2]| == 3 && |ShapesV()[2][0]| == 3 && |ShapesV()[2][1]| == 3 && |ShapesV()[2][2]| == 3;
      case 3 => assert |ShapesV()[3]| == 3 && |ShapesV()[3][0]| == 3 && |ShapesV()[3][1]| == 3 && |ShapesV()[3][2]| == 3;
    }
  }

  lemma ShapesOfW(r: Rotation)
    ensures CellCount(ShapesW()[r]) == 5
    ensures forall i | 0 <= i < 4 :: WellFormedShape(ShapesW()[i])
  {
    match r {
      case 0 => assert |ShapesW()[0]| == 3 && |ShapesW()[0][0]| == 3 && |ShapesW()[0][1]| == 3 && |ShapesW()[0][2]| == 3;
      case 1 => assert |ShapesW()[1]| == 3 && |ShapesW()[1][0]| == 3 && |ShapesW()[1][1]| == 3 && |ShapesW()[1][2]| == 3;
      case 2 => assert |ShapesW()[2]| == 3 && |ShapesW()[2][0]| == 3 && |ShapesW()[2][1]| == 3 && |ShapesW()[2][2]| == 3;
      case 3 => assert |ShapesW()[3]| == 3 && |ShapesW()[3][0]| == 3 && |ShapesW()[3][1]| == 3 && |ShapesW()[3][2]| == 3;
    }
  }

  lemma ShapesOfX(r: Rotation)
    ensures CellCount(ShapesX()[r]) == 5
    ensures forall i | 0 <= i < 4 :: WellFormedShape(ShapesX()[i])
  {
    match r {
      case 0 => assert |ShapesX()[0]| == 3 && |ShapesX()[0][0]| == 3 && |ShapesX()[0][1]| == 3 && |ShapesX()[0][2]| == 3;
      case 1 => assert |ShapesX()[1]| == 3 && |ShapesX()[1][0]| == 3 && |ShapesX()[1][1]| == 3 && |ShapesX()[1][2]| == 3;
      case 2 => assert |ShapesX()[2]| == 3 && |ShapesX()[2][0]| == 3 && |ShapesX()[2][1]| == 3 && |ShapesX()[2][2]| == 3;
      case 3 => assert |ShapesX()[3]| == 3 && |ShapesX()[3][0]| == 3 && |ShapesX()[3][1]| == 3 && |ShapesX()[3][2]| == 3;
    }
  }

  lemma ShapesOfY(r: Rotation)
    ensures CellCount(ShapesY()[r]) == 5
    ensures forall i | 0 <= i < 4 :: WellFormedShape(ShapesY()[i])
  {
    match r {
      case 0 => assert |ShapesY()[0]| == 2 && |ShapesY()[0][0]| == 4 && |ShapesY()[0][1]| == 4;
      case 1 => assert |ShapesY()[1]| == 4 && |ShapesY()[1][0]| == 2 && |ShapesY()[1][1]| == 2 && |ShapesY()[1][2]| == 2 && |ShapesY()[1][3]| == 2;
      case 2 => assert |ShapesY()[2]| == 2 && |ShapesY()[2][0]| == 4 && |ShapesY()[2][1]| == 4;
      case 3 => assert |ShapesY()[3]| == 4 && |ShapesY()[3][0]| == 2 && |ShapesY()[3][1]| == 2 && |ShapesY()[3][2]| == 2 && |ShapesY()[3][3]| == 2;
    }
  }

  lemma ShapesOfZ(r: Rotation)
    ensures CellCount(ShapesZ()[r]) == 5
    ensures forall i | 0 <= i < 4 :: WellFormedShape(ShapesZ()[i])
  {
    match r {
      case 0 => assert |ShapesZ()[0]| == 3 && |ShapesZ()[0][0]| == 3 && |ShapesZ()[0][1]| == 3 && |ShapesZ()[0][2]| == 3;
      case 1 => assert |ShapesZ()[1]| == 3 && |ShapesZ()[1][0]| == 3 && |ShapesZ()[1][1]| == 3 && |ShapesZ()[1][2]| == 3;
      case 2 => assert |ShapesZ()[2]| == 3 && |ShapesZ()[2][0]| == 3 && |ShapesZ()[2][1]| == 3 && |ShapesZ()[2][2]| == 3;
      case 3 => assert |ShapesZ()[3]| == 3 && |ShapesZ()[3][0]| == 3 && |ShapesZ()[3][1]| == 3 && |ShapesZ()[3][2]| == 3;
    }
  }

  lemma ShapesOfF(r: Rotation)
    ensures CellCount(ShapesF()[r]) == 5
    ensures forall i | 0 <= i < 4 :: WellFormedShape(ShapesF()[i])
  {
    match r {
      case 0 => assert |ShapesF()[0]| == 3 && |ShapesF()[0][0]| == 3 && |ShapesF()[0][1]| == 3 && |ShapesF()[0][2]| == 3;
      case 1 => assert |ShapesF()[1]| == 3 && |ShapesF()[1][0]| == 3 && |ShapesF()[1][1]| == 3 && |ShapesF()[1][2]| == 3;
      case 2 => assert |ShapesF()[2]| == 3 && |ShapesF()[2][0]| == 3 && |ShapesF()[2][1]| == 3 && |ShapesF()[2][2]| == 3;
      case 3 => assert |ShapesF()[3]| == 3 && |ShapesF()[3][0]| == 3 && |ShapesF()[3][1]| == 3 && |ShapesF()[3][2]| == 3;
    }
  }

  lemma ShapesOfT(r: Rotation)
    ensures CellCount(ShapesT()[r]) == 5
    ensures forall i | 0 <= i < 4 :: WellFormedShape(ShapesT()[i])
  {
    match r {
      case 0 => assert |ShapesT()[0]| == 3 && |ShapesT()[0][0]| == 3 && |ShapesT()[0][1]| == 3 && |ShapesT()[0][2]| == 3;
      case 1 => assert |ShapesT()[1]| == 3 && |ShapesT()[1][0]| == 3 && |ShapesT()[1][1]| == 3 && |ShapesT()[1][2]| == 3;
      case 2 => assert |ShapesT()[2]| == 3 && |ShapesT()[2][0]| == 3 && |ShapesT()[2][1]| == 3 && |ShapesT()[2][2]| == 3;
      case 3 => assert |ShapesT()[3]| == 3 && |ShapesT()[3][0]| == 3 && |ShapesT()[3][1]| == 3 && |ShapesT()[3][2]| == 3;
    }
  }

  lemma ShapesOfL(r: Rotation)
    ensures CellCount(ShapesL()[r]) == 5
    ensures forall i | 0 <= i < 4 :: WellFormedShape(ShapesL()[i])
  {
    match r {
      case 0 => assert |ShapesL()[0]| == 2 && |ShapesL()[0][0]| == 4 && |ShapesL()[0][1]| == 4;
      case 1 => assert |ShapesL()[1]| == 4 && |ShapesL()[1][0]| == 2 && |ShapesL()[1][1]| == 2 && |ShapesL()[1][2]| == 2 && |ShapesL()[1][3]| == 2;
      case 2 => assert |ShapesL()[2]| == 2 && |ShapesL()[2][0]| == 4 && |ShapesL()[2][1]| == 4;
      case 3 => assert |ShapesL()[3]| == 4 && |ShapesL()[3][0]| == 2 && |ShapesL()[3][1]| == 2 && |ShapesL()[3][2]| == 2 && |ShapesL()[3][3]| == 2;
    }
  }

  lemma ShapesOfN(r: Rotation)
    ensures CellCount(ShapesN()[r]) == 5
    ensures forall i | 0 <= i < 4 :: WellFormedShape(ShapesN()[i])
  {
    match r {
      case 0 => assert |ShapesN()[0]| == 2 && |ShapesN()[0][0]| == 4 && |ShapesN()[0][1]| == 4;
      case 1 => assert |ShapesN()[1]| == 4 && |ShapesN()[1][0]| == 2 && |ShapesN()[1][1]| == 2 && |ShapesN()[1][2]| == 2 && |ShapesN()[1][3]| == 2;
      case 2 => assert |ShapesN()[2]| == 2 && |ShapesN()[2][0]| == 4 && |ShapesN()[2][1]| == 4;
      case 3 => assert |ShapesN()[3]| == 4 && |ShapesN()[3][0]| == 2 && |ShapesN()[3][1]| == 2 && |ShapesN()[3][2]| == 2 && |ShapesN()[3][3]| == 2;
    }
  }

  /**
   * Every matrix of the table has exactly five occupied cells, is rectangular,
   * uses only 0 and 1, and fits in 5 x 5.
   */
  lemma ShapeTable(t: PieceType, r: Rotation)
    ensures CellCount(ShapeOf(t, r)) == 5
    ensures WellFormedShape(ShapeOf(t, r))
  {
    match t {
      case I => ShapesOfI(r);
      case P => ShapesOfP(r);
      case U => ShapesOfU(r);
      case V => ShapesOfV(r);
      case W => ShapesOfW(r);
      case X => ShapesOfX(r);
      case Y => ShapesOfY(r);
      case Z => ShapesOfZ(r);
      case F => ShapesOfF(r);
      case T => ShapesOfT(r);
      case L => ShapesOfL(r);
      case N => ShapesOfN(r);
    }
  }

  /** Every matrix of the table has an occupied cell, which a drop needs to reach the floor. */
  lemma ShapeHasCell(t: PieceType, r: Rotation)
    ensures HasCell(ShapeOf(t, r))
  {
    ShapeTable(t, r);
    CellCountPositive(ShapeOf(t, r));
  }

  /** The matrices the table repeats on purpose, and the N/Y coincidence. */
  lemma RepeatedShapes()
    ensures forall r: Rotation :: ShapeOf(X, r) == ShapeOf(X, 0)
    ensures ShapeOf(I, 0) == ShapeOf(I, 2) && ShapeOf(I, 1) == ShapeOf(I, 3)
    ensures ShapeOf(Z, 0) == ShapeOf(Z, 2) && ShapeOf(Z, 1) == ShapeOf(Z, 3)
    ensures ShapeOf(N, 0) == ShapeOf(Y, 0)
  {
  }
}
