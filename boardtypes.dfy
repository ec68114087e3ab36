/**
 * Data shapes of lib/game/types.ts, used by combat, board and ai: there the
 * board holds the character objects themselves, and the combat code updates
 * them in place, so a character is a heap object (`Unit`) that the teams and
 * the board cells share. A special tile is an object too, because applying it
 * sets its `used` flag in place.
 */
module BoardTypes {
  import opened Wrappers
  import opened Geometry
  import opened Constants
  import opened Types

  /** A character object; `state` holds all sixteen fields of a character. */
  class Unit {
    var state: Character

    constructor (c: Character)
      ensures state == c
    {
      state := c;
    }
  }

  /**
   * A special tile object. Only its `used` flag is ever written; the tile kinds
   * of lib/game/types.ts are those of `TileKind` without the star.
   */
  class Tile {
    const position: Position
    const kind: TileKind
    var used: bool

    constructor (position: Position, kind: TileKind)
      ensures this.position == position && this.kind == kind && !used
    {
      this.position := position;
      this.kind := kind;
      used := false;
    }
  }

  /** The game state of lib/game/types.ts: the same fields as `GameState`, over objects. */
  datatype BoardState = BoardState(
    board: Grid<Unit>,
    playerTeam: seq<Unit>,
    enemyTeam: seq<Unit>,
    specialTiles: seq<Tile>,
    currentTurn: Team,
    currentCharacterIndex: int,
    selectedCharacter: Option<Unit>,
    gameOver: bool,
    winner: Option<Team>,
    turnCount: int,
    moveCount: int,
    movementCount: int,
    turnOrder: seq<string>,
    currentTurnOrderIndex: int)

  /** The current field values of a list of character objects. */
  function States(units: seq<Unit>): (r: seq<Character>)
    reads set u | u in units
    ensures |r| == |units|
    ensures forall i :: 0 <= i < |units| ==> r[i] == units[i].state
  {
    seq(|units|, i requires 0 <= i < |units| reads units => units[i].state)
  }

  /** Every object standing on some cell of the board. */
  ghost function BoardUnits(board: Grid<Unit>): (r: set<Unit>)
    requires IsGrid(board)
    ensures forall p :: IsValidPosition(p) && At(board, p).Some? ==> At(board, p).value in r
  {
    set y, x | 0 <= y < BOARD_SIZE && 0 <= x < BOARD_SIZE && board[y][x].Some? :: board[y][x].value
  }

  /** The board as the current field values of its occupants. */
  ghost function View(board: Grid<Unit>): (v: Grid<Character>)
    requires IsGrid(board)
    reads BoardUnits(board)
    ensures IsGrid(v)
    ensures forall p :: IsValidPosition(p) ==>
      At(v, p) == if At(board, p).Some? then Some(At(board, p).value.state) else None
  {
    seq(BOARD_SIZE, y requires 0 <= y < BOARD_SIZE reads BoardUnits(board) =>
      seq(BOARD_SIZE, x requires 0 <= x < BOARD_SIZE reads BoardUnits(board) =>
        if board[y][x].Some? then Some(board[y][x].value.state) else None))
  }

  /** No object stands on two cells at once. */
  ghost predicate OneCellEach(board: Grid<Unit>)
    requires IsGrid(board)
  {
    forall p, q :: IsValidPosition(p) && IsValidPosition(q) && At(board, p).Some? && At(board, p) == At(board, q) ==> p == q
  }
}
