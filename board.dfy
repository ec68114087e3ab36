/**
 * lib/game/board.ts: setting up a game of the object-based engine (empty
 * board, thirty special tiles, two teams of three objects), finding and
 * applying a special tile, and deciding whether the game is over.
 */
module Board {
  import opened Wrappers
  import opened Geometry
  import opened Constants
  import opened Types
  import opened Characters
  import opened Utils
  import opened BoardTypes
  import GameAttack
  import GameLogic
  import EndTurn

  // ---------------------------------------------------------------------
  // The board and the special tiles
  // ---------------------------------------------------------------------

  /** createBoard: 16 rows of 16 empty cells, built row by row. */
  method CreateBoard() returns (board: Grid<Unit>)
    ensures IsGrid(board)
    ensures forall p :: IsValidPosition(p) ==> At(board, p) == None
    ensures board == EmptyGrid()
  {
    board := [];
    var y := 0;
    while y < BOARD_SIZE
      invariant 0 <= y <= BOARD_SIZE && |board| == y
      invariant forall r :: 0 <= r < y ==> board[r] == EmptyRow()
    {
      var row: seq<Option<Unit>> := [];
      var x := 0;
      while x < BOARD_SIZE
        invariant 0 <= x <= BOARD_SIZE && |row| == x
        invariant forall c :: 0 <= c < x ==> row[c] == None
      {
        row := row + [None];
        x := x + 1;
      }
      assert row == EmptyRow();
      board := board + [row];
      y := y + 1;
    }
  }

  /** Tiles of each kind that the object engine scatters. */
  const TILES_PER_BOARD_KIND: nat := 10

  /** The kinds the object engine scatters, in the order it places them. */
  const BOARD_TILE_KINDS: seq<TileKind> := [Heal, DamageBoost, MovementBoost]

  /**
   * getRandomPosition: draws cells until one is not in `used`. The model takes
   * the accepted draw: any cell of the board outside `used`. The source would
   * draw forever when every cell is used, so a free cell is required.
   */
  method GetRandomPosition(used: set<Position>) returns (p: Position)
    requires |used| < BOARD_SIZE * BOARD_SIZE
    ensures IsValidPosition(p) && p !in used
  {
    FreeCellExists(used);
    p :| IsValidPosition(p) && p !in used;
  }

  /** One placement loop of generateSpecialTiles: ten new unused tiles of `kind` on cells not yet used. */
  method PlaceTiles(kind: TileKind, tiles0: seq<Tile>, used0: set<Position>) returns (tiles: seq<Tile>, used: set<Position>)
    requires |used0| + TILES_PER_BOARD_KIND <= BOARD_SIZE * BOARD_SIZE
    requires forall i :: 0 <= i < |tiles0| ==> tiles0[i].position in used0
    ensures |tiles| == |tiles0| + TILES_PER_BOARD_KIND && tiles[..|tiles0|] == tiles0
    ensures |used| == |used0| + TILES_PER_BOARD_KIND && used0 <= used
    ensures forall i :: 0 <= i < |tiles| ==> tiles[i].position in used
    ensures forall i :: |tiles0| <= i < |tiles| ==>
      fresh(tiles[i]) && tiles[i].kind == kind && !tiles[i].used
      && IsValidPosition(tiles[i].position) && tiles[i].position !in used0
    ensures forall i, j :: |tiles0| <= i < j < |tiles| ==> tiles[i].position != tiles[j].position
  {
    tiles, used := tiles0, used0;
    var k := 0;
    while k < TILES_PER_BOARD_KIND
      invariant 0 <= k <= TILES_PER_BOARD_KIND
      invariant |tiles| == |tiles0| + k && tiles[..|tiles0|] == tiles0
      invariant |used| == |used0| + k && used0 <= used
      invariant forall i :: 0 <= i < |tiles| ==> tiles[i].position in used
      invariant forall i :: |tiles0| <= i < |tiles| ==>
        fresh(tiles[i]) && tiles[i].kind == kind && !tiles[i].used
        && IsValidPosition(tiles[i].position) && tiles[i].position !in used0
      invariant forall i, j :: |tiles0| <= i < j < |tiles| ==> tiles[i].position != tiles[j].position
    {
      var pos := GetRandomPosition(used);
      var tile := new Tile(pos, kind);
      tiles := tiles + [tile];
      used := used + {pos};
      k := k + 1;
    }
  }

  /**
   * generateSpecialTiles of board.ts: ten heal, then ten damage-boost, then ten
   * movement-boost tiles, all unused, on thirty distinct cells. Unlike the
   * generator of utils.ts, cells of the starting characters are not avoided.
   */
  method GenerateBoardTiles() returns (tiles: seq<Tile>)
    ensures |tiles| == |BOARD_TILE_KINDS| * TILES_PER_BOARD_KIND
    ensures forall i :: 0 <= i < |tiles| ==>
      fresh(tiles[i]) && !tiles[i].used && IsValidPosition(tiles[i].position)
      && tiles[i].kind == BOARD_TILE_KINDS[i / TILES_PER_BOARD_KIND]
    ensures forall i, j :: 0 <= i < j < |tiles| ==> tiles[i].position != tiles[j].position
  {
    var used: set<Position> := {};
    var heal, damage, movement;
    heal, used := PlaceTiles(Heal, [], used);
    damage, used := PlaceTiles(DamageBoost, heal, used);
    assert damage[..10] == heal;
    movement, used := PlaceTiles(MovementBoost, damage, used);
    assert movement[..20] == damage;
    tiles := movement;
    forall i | 0 <= i < |tiles|
      ensures tiles[i].kind == BOARD_TILE_KINDS[i / TILES_PER_BOARD_KIND]
    {
      if i < 10 {
        assert tiles[i] == damage[i] == heal[i];
      } else if i < 20 {
        assert tiles[i] == damage[i];
      }
    }
  }

  // ---------------------------------------------------------------------
  // Setup
  // ---------------------------------------------------------------------

  const PLAYER_CELLS: seq<Position> := [Position(6, 13), Position(7, 14), Position(8, 13)]
  const ENEMY_CELLS: seq<Position> := [Position(6, 2), Position(7, 1), Position(8, 2)]
  const TEAM_KINDS: seq<CharacterType> := [Warrior, Mage, Thief]

  /** One forEach of initializeGame: creates a team of new objects and stands each on its cell. */
  method PlaceTeam(team: Team, cells: seq<Position>, now: string, board0: Grid<Unit>) returns (units: seq<Unit>, board: Grid<Unit>)
    requires IsGrid(board0) && |cells| == |TEAM_KINDS|
    requires forall i :: 0 <= i < |cells| ==> IsValidPosition(cells[i])
    requires forall i, j :: 0 <= i < j < |cells| ==> cells[i] != cells[j]
    ensures IsGrid(board) && |units| == |cells|
    ensures forall i :: 0 <= i < |units| ==> fresh(units[i])
    ensures forall i :: 0 <= i < |units| ==> units[i].state == CreateCharacter(TEAM_KINDS[i], team, cells[i], None, now)
    ensures forall i, j :: 0 <= i < j < |units| ==> units[i] != units[j]
    ensures forall i :: 0 <= i < |units| ==> At(board, cells[i]) == Some(units[i])
    ensures forall p :: IsValidPosition(p) && p !in cells ==> At(board, p) == At(board0, p)
  {
    units, board := [], board0;
    var k := 0;
    while k < |cells|
      invariant 0 <= k <= |cells| && |units| == k && IsGrid(board)
      invariant forall i :: 0 <= i < k ==> fresh(units[i])
      invariant forall i :: 0 <= i < k ==> units[i].state == CreateCharacter(TEAM_KINDS[i], team, cells[i], None, now)
      invariant forall i, j :: 0 <= i < j < k ==> units[i] != units[j]
      invariant forall i :: 0 <= i < k ==> At(board, cells[i]) == Some(units[i])
      invariant forall p :: IsValidPosition(p) && p !in cells ==> At(board, p) == At(board0, p)
    {
      var unit := new Unit(CreateCharacter(TEAM_KINDS[k], team, cells[k], None, now));
      StandNext(board, cells, units, unit);
      board := Put(board, cells[k], Some(unit));
      units := units + [unit];
      k := k + 1;
    }
  }

  /** Standing the next object of a team on its cell keeps the earlier ones and every cell outside `cells`. */
  lemma StandNext(board: Grid<Unit>, cells: seq<Position>, units: seq<Unit>, unit: Unit)
    requires IsGrid(board) && |units| < |cells|
    requires forall i :: 0 <= i < |cells| ==> IsValidPosition(cells[i])
    requires forall i, j :: 0 <= i < j < |cells| ==> cells[i] != cells[j]
    requires forall i :: 0 <= i < |units| ==> At(board, cells[i]) == Some(units[i])
    ensures var next := Put(board, cells[|units|], Some(unit));
      && (forall i :: 0 <= i <= |units| ==> At(next, cells[i]) == Some((units + [unit])[i]))
      && (forall p :: IsValidPosition(p) && p !in cells ==> At(next, p) == At(board, p))
  {
    var k := |units|;
    var next := Put(board, cells[k], Some(unit));
    forall i | 0 <= i <= k
      ensures At(next, cells[i]) == Some((units + [unit])[i])
    {
      if i < k {
        assert cells[i] != cells[k];
      }
    }
  }

  /** When every occupied cell is one of `cells` and their objects are distinct, no object stands twice. */
  lemma OccupiedCellsOneEach(board: Grid<Unit>, units: seq<Unit>, cells: seq<Position>)
    requires IsGrid(board) && |units| == |cells|
    requires forall i :: 0 <= i < |cells| ==> IsValidPosition(cells[i]) && At(board, cells[i]) == Some(units[i])
    requires forall i, j :: 0 <= i < j < |units| ==> units[i] != units[j]
    requires forall p :: IsValidPosition(p) && p !in cells ==> At(board, p) == None
    ensures OneCellEach(board)
  {
    forall p, q | IsValidPosition(p) && IsValidPosition(q) && At(board, p).Some? && At(board, p) == At(board, q)
      ensures p == q
    {
      var i :| 0 <= i < |cells| && cells[i] == p;
      var j :| 0 <= j < |cells| && cells[j] == q;
      assert units[i] == units[j];
      assert i == j;
    }
  }

  /** `units` are new characters of `team`, a warrior, a mage and a thief, created on `cells`. */
  ghost predicate StartingTeam(units: seq<Unit>, team: Team, cells: seq<Position>, now: string)
    reads set u | u in units
  {
    |units| == |TEAM_KINDS| == |cells| &&
    forall i :: 0 <= i < |units| ==> units[i].state == CreateCharacter(TEAM_KINDS[i], team, cells[i], None, now)
  }

  /** The board of a new game: each character on its starting cell, every other cell empty. */
  ghost predicate StartingBoard(board: Grid<Unit>, playerTeam: seq<Unit>, enemyTeam: seq<Unit>)
  {
    && IsGrid(board) && |playerTeam| == |enemyTeam| == |TEAM_KINDS|
    && (forall i :: 0 <= i < |TEAM_KINDS| ==>
          At(board, PLAYER_CELLS[i]) == Some(playerTeam[i]) && At(board, ENEMY_CELLS[i]) == Some(enemyTeam[i]))
    && (forall p :: IsValidPosition(p) && p !in PLAYER_CELLS + ENEMY_CELLS ==> At(board, p) == None)
  }

  /** The six starting characters carry six distinct ids, and all are alive. */
  lemma StartingIdsDistinct(now: string, playerTeam: seq<Unit>, enemyTeam: seq<Unit>)
    requires StartingTeam(playerTeam, Player, PLAYER_CELLS, now)
    requires StartingTeam(enemyTeam, Enemy, ENEMY_CELLS, now)
    ensures UniqueIds(States(playerTeam) + States(enemyTeam))
    ensures forall c :: c in States(playerTeam) + States(enemyTeam) ==> c.isAlive
  {
    var team := States(playerTeam) + States(enemyTeam);
    StartingSlots(now, playerTeam, enemyTeam);
    SlotsDistinct();
    forall i, j | 0 <= i < j < 6
      ensures team[i].id != team[j].id
    {
      DefaultIdsDistinct(Slot(i).0, Slot(i).1, now, Slot(j).0, Slot(j).1, now);
    }
  }

  /** The i-th starting character carries the default id of its slot and is alive. */
  lemma StartingSlots(now: string, playerTeam: seq<Unit>, enemyTeam: seq<Unit>)
    requires StartingTeam(playerTeam, Player, PLAYER_CELLS, now)
    requires StartingTeam(enemyTeam, Enemy, ENEMY_CELLS, now)
    ensures var team := States(playerTeam) + States(enemyTeam);
      |team| == 6 && forall i :: 0 <= i < 6 ==> team[i].id == DefaultId(Slot(i).0, Slot(i).1, now) && team[i].isAlive
  {
    var team := States(playerTeam) + States(enemyTeam);
    forall i | 0 <= i < 6
      ensures team[i].id == DefaultId(Slot(i).0, Slot(i).1, now) && team[i].isAlive
    {
      if i < 3 {
        assert team[i] == playerTeam[i].state;
      } else {
        assert team[i] == enemyTeam[i - 3].state;
      }
    }
  }

  /** Side and class of the i-th starting character, players first. */
  function Slot(i: int): (Team, CharacterType)
    requires 0 <= i < 6
  {
    if i < 3 then (Player, TEAM_KINDS[i]) else (Enemy, TEAM_KINDS[i - 3])
  }

  lemma SlotsDistinct()
    ensures forall i, j :: 0 <= i < j < 6 ==> Slot(i) != Slot(j)
  {
    forall i, j | 0 <= i < j < 6
      ensures Slot(i) != Slot(j)
    {
      if j < 3 || 3 <= i {
        assert TEAM_KINDS[i % 3] != TEAM_KINDS[j % 3];
      }
    }
  }

  /** The six starting cells are on the board and pairwise distinct. */
  lemma StartingCellsApart()
    ensures forall i :: 0 <= i < 3 ==> IsValidPosition(PLAYER_CELLS[i]) && IsValidPosition(ENEMY_CELLS[i])
    ensures forall i, j :: 0 <= i < j < 3 ==> PLAYER_CELLS[i] != PLAYER_CELLS[j] && ENEMY_CELLS[i] != ENEMY_CELLS[j]
    ensures forall i, j :: 0 <= i < 3 && 0 <= j < 3 ==> PLAYER_CELLS[i] != ENEMY_CELLS[j]
    ensures forall i, j :: 0 <= i < j < 6 ==> (PLAYER_CELLS + ENEMY_CELLS)[i] != (PLAYER_CELLS + ENEMY_CELLS)[j]
  {
  }

  /** The two teams of initializeGame, created and stood on an empty board. */
  method PlaceStartingTeams(now: string) returns (playerTeam: seq<Unit>, enemyTeam: seq<Unit>, board: Grid<Unit>)
    ensures StartingTeam(playerTeam, Player, PLAYER_CELLS, now)
    ensures StartingTeam(enemyTeam, Enemy, ENEMY_CELLS, now)
    ensures StartingBoard(board, playerTeam, enemyTeam)
    ensures OneCellEach(board)
  {
    var empty := CreateBoard();
    StartingCellsApart();
    var half;
    playerTeam, half := PlaceTeam(Player, PLAYER_CELLS, now, empty);
    assert forall i :: 0 <= i < 3 ==> allocated(playerTeam[i]);
    enemyTeam, board := PlaceTeam(Enemy, ENEMY_CELLS, now, half);
    assert forall i, j :: 0 <= i < 3 && 0 <= j < 3 ==> playerTeam[i] != enemyTeam[j];
    TeamsStandApart(empty, half, board, playerTeam, enemyTeam);
  }

  /** The board after both forEach loops of initializeGame, as a fact about the three successive boards. */
  lemma TeamsStandApart(empty: Grid<Unit>, half: Grid<Unit>, board: Grid<Unit>, playerTeam: seq<Unit>, enemyTeam: seq<Unit>)
    requires IsGrid(empty) && IsGrid(half) && IsGrid(board)
    requires forall p :: IsValidPosition(p) ==> At(empty, p) == None
    requires |playerTeam| == |enemyTeam| == 3
    requires forall i :: 0 <= i < 3 ==> At(half, PLAYER_CELLS[i]) == Some(playerTeam[i])
    requires forall p :: IsValidPosition(p) && p !in PLAYER_CELLS ==> At(half, p) == At(empty, p)
    requires forall i :: 0 <= i < 3 ==> At(board, ENEMY_CELLS[i]) == Some(enemyTeam[i])
    requires forall p :: IsValidPosition(p) && p !in ENEMY_CELLS ==> At(board, p) == At(half, p)
    requires forall i, j :: 0 <= i < j < 3 ==> playerTeam[i] != playerTeam[j] && enemyTeam[i] != enemyTeam[j]
    requires forall i, j :: 0 <= i < 3 && 0 <= j < 3 ==> playerTeam[i] != enemyTeam[j]
    ensures StartingBoard(board, playerTeam, enemyTeam)
    ensures OneCellEach(board)
  {
    StartingCellsApart();
    assert StartingBoard(board, playerTeam, enemyTeam);
    var units := playerTeam + enemyTeam;
    assert forall i, j :: 0 <= i < j < |units| ==> units[i] != units[j];
    OccupiedCellsOneEach(board, units, PLAYER_CELLS + ENEMY_CELLS);
  }

  /**
   * initializeGame of board.ts: an empty board, warrior, mage and thief for
   * each side created on their starting cells and stood there, thirty special
   * tiles, the initiative order of the six, and the side of whoever acts first.
   * `now` is the clock reading that default ids embed; `tie` breaks equal
   * initiative within a side.
   */
  method InitializeBoardGame(now: string, tie: string -> int) returns (s: BoardState)
    ensures OpeningSides(s.playerTeam, s.enemyTeam, s.board, now)
    ensures OpeningTiles(s.specialTiles)
    ensures OpeningTurn(s.turnOrder, s.currentTurn, States(s.playerTeam), States(s.enemyTeam), tie)
    ensures s.turnCount == 1 && s.currentTurnOrderIndex == 0 && s.currentCharacterIndex == 0
    ensures !s.gameOver && s.winner == None && s.selectedCharacter == None
    ensures s.moveCount == 0 && s.movementCount == 0
  {
    var playerTeam, enemyTeam, board := PlaceStartingTeams(now);
    StartingIdsDistinct(now, playerTeam, enemyTeam);
    assert OpeningSides(playerTeam, enemyTeam, board, now);
    var specialTiles := GenerateBoardTiles();
    assert OpeningTiles(specialTiles);
    var players, enemies := States(playerTeam), States(enemyTeam);
    var turnOrder, currentTurn := OrderOpeningTurns(players, enemies, tie);
    assert States(playerTeam) == players && States(enemyTeam) == enemies;
    s := BoardState(board, playerTeam, enemyTeam, specialTiles, currentTurn, 0, None, false, None, 1, 0, 0, turnOrder, 0);
  }

  /**
   * The two sides of a new game: new characters on their starting cells,
   * every other cell empty, nobody on two cells, six distinct ids.
   */
  ghost predicate OpeningSides(playerTeam: seq<Unit>, enemyTeam: seq<Unit>, board: Grid<Unit>, now: string)
    reads (set u | u in playerTeam), (set u | u in enemyTeam)
  {
    && StartingTeam(playerTeam, Player, PLAYER_CELLS, now)
    && StartingTeam(enemyTeam, Enemy, ENEMY_CELLS, now)
    && StartingBoard(board, playerTeam, enemyTeam) && OneCellEach(board)
    && UniqueIds(States(playerTeam) + States(enemyTeam))
  }

  /** The thirty special tiles of a new game: ten of each kind in order, all unused, on distinct cells of the board. */
  ghost predicate OpeningTiles(tiles: seq<Tile>)
    reads set t | t in tiles
  {
    && |tiles| == |BOARD_TILE_KINDS| * TILES_PER_BOARD_KIND
    && (forall i :: 0 <= i < |tiles| ==>
          !tiles[i].used && IsValidPosition(tiles[i].position) && tiles[i].kind == BOARD_TILE_KINDS[i / TILES_PER_BOARD_KIND])
    && (forall i, j :: 0 <= i < j < |tiles| ==> tiles[i].position != tiles[j].position)
  }

  /** The initiative order of the six starting characters, and the side of whoever it names first. */
  ghost predicate OpeningTurn(turnOrder: seq<string>, currentTurn: Team, players: seq<Character>, enemies: seq<Character>, tie: string -> int)
  {
    && IsTurnOrderOf(turnOrder, players, enemies, tie) && |turnOrder| == 6
    && exists c :: c in players + enemies && c.id == turnOrder[0] && c.team == currentTurn
  }

  /** The last two steps of initializeGame: generateTurnOrder and the side of its first character. */
  method OrderOpeningTurns(players: seq<Character>, enemies: seq<Character>, tie: string -> int) returns (turnOrder: seq<string>, currentTurn: Team)
    requires forall c :: c in players + enemies ==> c.isAlive
    requires |players + enemies| == 6
    ensures OpeningTurn(turnOrder, currentTurn, players, enemies, tie)
  {
    turnOrder := GenerateTurnOrder(players, enemies, tie);
    currentTurn := FirstTeam(players, enemies, turnOrder, tie);
  }

  /** The side of whoever the order names first: all six starting characters are alive, so the order is full. */
  method FirstTeam(players: seq<Character>, enemies: seq<Character>, turnOrder: seq<string>, tie: string -> int) returns (team: Team)
    requires forall c :: c in players + enemies ==> c.isAlive
    requires |players + enemies| == 6
    requires IsTurnOrderOf(turnOrder, players, enemies, tie) && |turnOrder| == |AliveOnly(players + enemies)|
    ensures |turnOrder| == 6
    ensures exists c :: c in players + enemies && c.id == turnOrder[0] && c.team == team
  {
    var all := players + enemies;
    assert AliveOnly(all) == all by {
      GameLogic.AliveOnlyKeepsAll(all);
    }
    TurnOrderFacts(turnOrder, players, enemies, tie);
    assert turnOrder[0] in turnOrder;
    var first := FindById(all, turnOrder[0]);
    team := if first.Some? then first.value.team else Player;
  }

  // ---------------------------------------------------------------------
  // Special tiles during play
  // ---------------------------------------------------------------------

  /**
   * checkSpecialTile: the first tile of the list that stands at `position` and
   * is unused, or none when there is no such tile.
   */
  function CheckSpecialTile(position: Position, tiles: seq<Tile>): (r: Option<Tile>)
    reads set t | t in tiles
    ensures r.Some? ==> r.value in tiles && r.value.position == position && !r.value.used
    ensures r.None? <==> forall t :: t in tiles ==> t.position != position || t.used
  {
    if tiles == [] then None
    else if tiles[0].position == position && !tiles[0].used then Some(tiles[0])
    else CheckSpecialTile(position, tiles[1..])
  }

  /** The current field values of a list of tile objects. */
  function TileValues(tiles: seq<Tile>): (r: seq<SpecialTile>)
    reads set t | t in tiles
    ensures |r| == |tiles|
    ensures forall i :: 0 <= i < |tiles| ==> r[i] == SpecialTile(tiles[i].position, tiles[i].kind, tiles[i].used)
  {
    if tiles == [] then [] else [SpecialTile(tiles[0].position, tiles[0].kind, tiles[0].used)] + TileValues(tiles[1..])
  }

  /** Both engines find the same tile under a character: the first unused one there. */
  lemma {:induction false} CheckSpecialTileAsInEndTurn(position: Position, tiles: seq<Tile>)
    ensures var i := EndTurn.UnusedTileAt(TileValues(tiles), position);
            CheckSpecialTile(position, tiles) == if i < 0 then None else Some(tiles[i])
    decreases |tiles|
  {
    if tiles != [] {
      CheckSpecialTileAsInEndTurn(position, tiles[1..]);
      assert TileValues(tiles)[1..] == TileValues(tiles[1..]);
    }
  }

  /**
   * The effect of a tile in the object engine: a heal restores 3 health without
   * passing the maximum, a damage boost adds 2, a movement boost sets the next
   * turn's boost to 3; any other kind changes nothing.
   */
  function BoardTileBonus(c: Character, kind: TileKind): (r: Character)
    ensures r == c.(health := r.health, damageBoost := r.damageBoost, movementBoost := r.movementBoost)
    ensures kind != Heal ==> r.health == c.health
    ensures kind == Heal ==> r.health == c.health + 3 || r.health == c.maxHealth
    ensures kind == Heal ==> r.health <= c.health + 3 && r.health <= c.maxHealth
    ensures kind == Heal && c.health <= c.maxHealth ==> r.health >= c.health
    ensures r.damageBoost == c.damageBoost + (if kind == DamageBoost then 2 else 0)
    ensures r.movementBoost == (if kind == MovementBoost then 3 else c.movementBoost)
  {
    match kind
    case Heal => c.(health := Min(c.maxHealth, c.health + 3))
    case DamageBoost => c.(damageBoost := c.damageBoost + 2)
    case MovementBoost => c.(movementBoost := 3)
    case _ => c
  }

  /**
   * A tile bonus keeps a well-formed living character well-formed. A heal on a
   * character with no health left would give it health while it stays marked
   * dead, but only a living character moves onto a tile.
   */
  lemma BoardBonusKeepsCharacterOk(c: Character, kind: TileKind)
    requires CharacterOk(c) && c.isAlive
    ensures CharacterOk(BoardTileBonus(c, kind))
  {
  }

  /**
   * applySpecialTile: the bonus on a copy of the character, and the tile
   * object marked used in place, whether or not it was used before.
   */
  method ApplySpecialTile(c: Character, tile: Tile) returns (updated: Character)
    modifies tile
    ensures tile.used
    ensures updated == BoardTileBonus(c, tile.kind)
  {
    updated := BoardTileBonus(c, tile.kind);
    tile.used := true;
  }

  // ---------------------------------------------------------------------
  // End of game
  // ---------------------------------------------------------------------

  datatype Verdict = Verdict(gameOver: bool, winner: Option<Team>)

  /** Somebody in the list still has health left. */
  predicate Standing(chars: seq<Character>)
  {
    exists c :: c in chars && c.health > 0
  }

  /**
   * The verdict of checkGameOver on the field values of both teams: a side with
   * nobody standing loses, the players' side being examined first, so when
   * both sides are down the enemy wins.
   */
  function GameOverVerdict(players: seq<Character>, enemies: seq<Character>): (r: Verdict)
    ensures r.gameOver <==> !Standing(players) || !Standing(enemies)
    ensures r.gameOver ==> r.winner == Some(if Standing(players) then Player else Enemy)
    ensures !r.gameOver ==> r.winner == None
  {
    if !Standing(players) then Verdict(true, Some(Enemy))
    else if !Standing(enemies) then Verdict(true, Some(Player))
    else Verdict(false, None)
  }

  /** checkGameOver: the verdict on the current field values of the two teams' objects. */
  function CheckGameOver(s: BoardState): (r: Verdict)
    reads set u | u in s.playerTeam + s.enemyTeam
    ensures r == GameOverVerdict(States(s.playerTeam), States(s.enemyTeam))
  {
    var playerAlive := exists i :: 0 <= i < |s.playerTeam| && s.playerTeam[i].state.health > 0;
    var enemyAlive := exists i :: 0 <= i < |s.enemyTeam| && s.enemyTeam[i].state.health > 0;
    assert playerAlive <==> Standing(States(s.playerTeam));
    assert enemyAlive <==> Standing(States(s.enemyTeam));
    if !playerAlive then Verdict(true, Some(Enemy))
    else if !enemyAlive then Verdict(true, Some(Player))
    else Verdict(false, None)
  }

  /**
   * With well-formed characters (alive exactly when health is left), the
   * verdict of board.ts is the one the state engine reaches after an attack
   * in a game not yet over.
   */
  lemma VerdictAsAfterAttack(s: GameState)
    requires !s.gameOver
    requires forall c :: c in s.playerTeam + s.enemyTeam ==> CharacterOk(c)
    ensures var v := GameOverVerdict(s.playerTeam, s.enemyTeam);
            var r := GameAttack.CheckAfterAttack(s);
            v.gameOver == r.gameOver && (v.gameOver ==> v.winner == r.winner)
  {
    StandingIsAlive(s.playerTeam);
    StandingIsAlive(s.enemyTeam);
  }

  lemma StandingIsAlive(chars: seq<Character>)
    requires forall c :: c in chars ==> CharacterOk(c)
    ensures Standing(chars) <==> AnyAlive(chars)
  {
    if Standing(chars) {
      var c :| c in chars && c.health > 0;
      assert c.isAlive;
    }
    if AnyAlive(chars) {
      var c :| c in chars && c.isAlive;
      assert c.health > 0;
    }
  }
}
