/**
 * lib/game/gameLogic.ts, part one: setting up a game and moving a character.
 * The state is a value; the board holds character ids.
 */
module GameLogic {
  import opened Wrappers
  import opened Geometry
  import opened Constants
  import opened Types
  import opened Characters
  import opened Utils
  import opened Agreement

  /** A special tile as generated, marked unused. */
  function Unused(t: PlacedTile): SpecialTile
  {
    SpecialTile(t.position, t.kind, false)
  }

  /** The team of the character whose id leads the order, or the player side when there is none. */
  function LeadingTeam(chars: seq<Character>, order: seq<string>): (t: Team)
    ensures |order| > 0 && FindById(chars, order[0]).Some? ==> t == FindById(chars, order[0]).value.team
    ensures |order| == 0 || FindById(chars, order[0]).None? ==> t == Player
  {
    if |order| == 0 then Player
    else match FindById(chars, order[0])
      case Some(c) => c.team
      case None => Player
  }

  /** Freshly generated tiles, each marked unused. */
  function MarkUnused(placed: seq<PlacedTile>): (tiles: seq<SpecialTile>)
    ensures |tiles| == |placed|
    ensures forall k :: 0 <= k < |placed| ==> tiles[k] == SpecialTile(placed[k].position, placed[k].kind, false)
  {
    seq(|placed|, k requires 0 <= k < |placed| => SpecialTile(placed[k].position, placed[k].kind, false))
  }

  /**
   * Each character written, in order, onto its cell of an empty board: every occupied cell holds the id of a character standing there,
   * and a character's cell holds its id unless a later one stands on it too.
   */
  method PlaceCharacters(chars: seq<Character>) returns (board: Grid<string>)
    requires forall c :: c in chars ==> IsValidPosition(c.position)
    ensures IsGrid(board)
    ensures forall p :: IsValidPosition(p) && At(board, p).Some? ==>
              exists j :: 0 <= j < |chars| && chars[j].position == p && At(board, p) == Some(chars[j].id)
    ensures forall j :: 0 <= j < |chars| && (forall i :: j < i < |chars| ==> chars[i].position != chars[j].position) ==>
              At(board, chars[j].position) == Some(chars[j].id)
  {
    board := EmptyGrid();
    for k := 0 to |chars|
      invariant IsGrid(board)
      invariant forall p :: IsValidPosition(p) && At(board, p).Some? ==>
                  exists j :: 0 <= j < k && chars[j].position == p && At(board, p) == Some(chars[j].id)
      invariant forall j :: 0 <= j < k && (forall i :: j < i < k ==> chars[i].position != chars[j].position) ==>
                  At(board, chars[j].position) == Some(chars[j].id)
    {
      assert chars[k] in chars;
      board := Put(board, chars[k].position, Some(chars[k].id));
    }
  }

  /** Placing living characters with distinct ids on distinct cells gives an agreeing board. */
  lemma PlacedBoardAgrees(board: Grid<string>, chars: seq<Character>)
    requires IsGrid(board) && UniqueIds(chars)
    requires forall c :: c in chars ==> IsValidPosition(c.position) && c.isAlive
    requires forall i, j :: 0 <= i < j < |chars| ==> chars[i].position != chars[j].position
    requires forall p :: IsValidPosition(p) && At(board, p).Some? ==>
               exists j :: 0 <= j < |chars| && chars[j].position == p && At(board, p) == Some(chars[j].id)
    requires forall j :: 0 <= j < |chars| && (forall i :: j < i < |chars| ==> chars[i].position != chars[j].position) ==>
               At(board, chars[j].position) == Some(chars[j].id)
    ensures BoardAgrees(board, chars)
  {
    forall c | c in chars
      ensures At(board, c.position) == Some(c.id)
    {
      var j :| 0 <= j < |chars| && chars[j] == c;
    }
    forall p | IsValidPosition(p) && At(board, p).Some?
      ensures var k := IndexOfId(chars, At(board, p).value); k >= 0 && chars[k].isAlive && chars[k].position == p
    {
      var j :| 0 <= j < |chars| && chars[j].position == p && At(board, p) == Some(chars[j].id);
      FindMember(chars, j);
      assert chars[j] in chars;
    }
  }

  /** Filtering a list of living characters keeps all of them. */
  lemma {:induction false} AliveOnlyKeepsAll(chars: seq<Character>)
    requires forall c :: c in chars ==> c.isAlive
    ensures AliveOnly(chars) == chars
  {
    if chars != [] {
      assert chars[0] in chars;
      AliveOnlyKeepsAll(chars[1..]);
    }
  }

  /** The initial tiles: 49 unused tiles, seven per base kind in order, on distinct cells away from the starting cells. */
  method InitialTiles() returns (tiles: seq<SpecialTile>)
    ensures |tiles| == |BASE_KINDS| * TILES_PER_BASE_KIND
    ensures forall k :: 0 <= k < |tiles| ==> tiles[k].kind == BASE_KINDS[k / TILES_PER_BASE_KIND]
    ensures forall t :: t in tiles ==> !t.used && IsValidPosition(t.position) && t.position !in STARTING_CELLS
    ensures forall i, j :: 0 <= i < j < |tiles| ==> tiles[i].position != tiles[j].position
  {
    var placed := GenerateSpecialTiles();
    tiles := MarkUnused(placed);
    forall t | t in tiles
      ensures IsValidPosition(t.position) && t.position !in STARTING_CELLS
    {
      var k :| 0 <= k < |tiles| && tiles[k] == t;
      assert placed[k] in placed;
    }
  }

  /**
   * initializeGame: the fixed roster, 49 fresh unused tiles, every character
   * placed on its cell, the initiative order, and the counters at their
   * starting values.
   */
  method InitializeGame(tie: string -> int) returns (s: GameState)
    ensures StateOk(s)
    ensures s.playerTeam == InitializeCharacters().0 && s.enemyTeam == InitializeCharacters().1
    ensures |s.specialTiles| == |BASE_KINDS| * TILES_PER_BASE_KIND
    ensures forall k :: 0 <= k < |s.specialTiles| ==> s.specialTiles[k].kind == BASE_KINDS[k / TILES_PER_BASE_KIND]
    ensures forall t :: t in s.specialTiles ==> !t.used && IsValidPosition(t.position) && t.position !in STARTING_CELLS
    ensures forall i, j :: 0 <= i < j < |s.specialTiles| ==> s.specialTiles[i].position != s.specialTiles[j].position
    ensures IsTurnOrderOf(s.turnOrder, s.playerTeam, s.enemyTeam, tie) && |s.turnOrder| == 6
    ensures s.currentTurn == LeadingTeam(All(s), s.turnOrder)
    ensures s.turnCount == 1 && s.currentTurnOrderIndex == 0 && s.currentCharacterIndex == 0
    ensures s.moveCount == 0 && s.movementCount == 0
    ensures !s.gameOver && s.winner == None && s.selectedCharacter == None
  {
    var playerTeam, enemyTeam := InitializeCharacters().0, InitializeCharacters().1;
    var specialTiles := InitialTiles();
    var all := Roster();
    InitialRosterFacts();
    AliveOnlyKeepsAll(all);
    var board := PlaceCharacters(all);
    PlacedBoardAgrees(board, all);
    var turnOrder := GenerateTurnOrder(playerTeam, enemyTeam, tie);
    s := GameState(
      board := board,
      playerTeam := playerTeam,
      enemyTeam := enemyTeam,
      specialTiles := specialTiles,
      currentTurn := LeadingTeam(all, turnOrder),
      currentCharacterIndex := 0,
      selectedCharacter := None,
      gameOver := false,
      winner := None,
      turnCount := 1,
      moveCount := 0,
      movementCount := 0,
      turnOrder := turnOrder,
      currentTurnOrderIndex := 0);
  }

  // ---------------------------------------------------------------------
  // Moving

  /** The mover after the move: on its new cell, with the distance spent. */
  function Moved(c: Character, newPosition: Position): Character
  {
    c.(position := newPosition, movement := c.movement - Distance(c.position, newPosition))
  }

  /**
   * moveCharacter: a living character with that id moves to a free cell on the
   * board at a Manhattan distance between 1 and its remaining movement; its
   * old cell is cleared, the new cell holds it, the distance is spent, and the
   * move counter rises. In every other case the state is returned as it is.
   */
  function MoveCharacter(s: GameState, characterId: string, newPosition: Position): (r: GameState)
    requires IsGrid(s.board) && forall c :: c in All(s) ==> IsValidPosition(c.position)
    ensures (|| !IsValidPosition(newPosition)
             || FindById(All(s), characterId).None?
             || !FindById(All(s), characterId).value.isAlive
             || Distance(FindById(All(s), characterId).value.position, newPosition) == 0
             || Distance(FindById(All(s), characterId).value.position, newPosition) > FindById(All(s), characterId).value.movement
             || At(s.board, newPosition).Some?) ==> r == s
    ensures r != s ==>
              var c := FindById(All(s), characterId).value;
              var d := Distance(c.position, newPosition);
              var moved := Moved(c, newPosition);
              && IsValidPosition(newPosition) && c.isAlive && 0 < d <= c.movement && At(s.board, newPosition) == None
              && IsGrid(r.board)
              && At(r.board, c.position) == None && At(r.board, newPosition) == Some(characterId)
              && (forall p :: IsValidPosition(p) && p != c.position && p != newPosition ==> At(r.board, p) == At(s.board, p))
              && 0 <= moved.movement < c.movement
              && r.moveCount == s.moveCount + 1
              && (c.team == Player ==> r == s.(board := r.board, playerTeam := ReplaceById(s.playerTeam, characterId, moved), moveCount := r.moveCount))
              && (c.team == Enemy ==> r == s.(board := r.board, enemyTeam := ReplaceById(s.enemyTeam, characterId, moved), moveCount := r.moveCount))
  {
    if !IsValidPosition(newPosition) then s
    else
      match FindById(All(s), characterId)
      case None => s
      case Some(c) =>
        var d := Distance(c.position, newPosition);
        if !c.isAlive || d > c.movement || d == 0 then s
        else if At(s.board, newPosition).Some? then s
        else
          var board := Put(Put(s.board, c.position, None), newPosition, Some(characterId));
          var moved := Moved(c, newPosition);
          if c.team == Player then
            s.(board := board, playerTeam := ReplaceById(s.playerTeam, characterId, moved), moveCount := s.moveCount + 1)
          else
            s.(board := board, enemyTeam := ReplaceById(s.enemyTeam, characterId, moved), moveCount := s.moveCount + 1)
  }

  /**
   * On a state where the board agrees with the teams, a move succeeds exactly
   * when the mover is alive, the distance is not zero, and canMoveTo holds.
   */
  lemma MoveSucceedsIffCanMoveTo(s: GameState, characterId: string, newPosition: Position)
    requires StateOk(s)
    ensures var r := MoveCharacter(s, characterId, newPosition);
            r != s <==>
              && FindById(All(s), characterId).Some?
              && FindById(All(s), characterId).value.isAlive
              && Distance(FindById(All(s), characterId).value.position, newPosition) > 0
              && CanMoveTo(FindById(All(s), characterId).value, newPosition, s.board)
  {
    var r := MoveCharacter(s, characterId, newPosition);
    var f := FindById(All(s), characterId);
    if f.Some? && f.value.isAlive && IsValidPosition(newPosition) && Distance(f.value.position, newPosition) > 0 &&
       Distance(f.value.position, newPosition) <= f.value.movement && At(s.board, newPosition) == None {
      assert r.moveCount == s.moveCount + 1;
    }
  }

  /** Moving keeps the state invariant: the board still agrees with the teams. */
  lemma MovePreservesStateOk(s: GameState, characterId: string, newPosition: Position)
    requires StateOk(s)
    ensures StateOk(MoveCharacter(s, characterId, newPosition))
  {
    var r := MoveCharacter(s, characterId, newPosition);
    if r != s {
      var c := FindById(All(s), characterId).value;
      var moved := Moved(c, newPosition);
      MoveRebuildsAll(s, characterId, moved);
      assert All(r) == ReplaceById(All(s), characterId, moved);
      MoveKeepsAgreement(s.board, All(s), characterId, newPosition, r.board);
      assert c in All(s);
      ReplacedStaysOk(s, characterId, moved);
    }
  }

  /** Replacing a member by a well-formed character of its own side keeps every member well formed and both sides tagged. */
  lemma ReplacedStaysOk(s: GameState, id: string, u: Character)
    requires StateOk(s) && FindById(All(s), id).Some?
    requires CharacterOk(u) && u.team == FindById(All(s), id).value.team
    ensures forall x :: x in ReplaceById(All(s), id, u) ==> CharacterOk(x)
    ensures u.team == Player ==> forall x :: x in ReplaceById(s.playerTeam, id, u) ==> x.team == Player
    ensures u.team == Enemy ==> forall x :: x in ReplaceById(s.enemyTeam, id, u) ==> x.team == Enemy
  {
    ReplacedMembers(All(s), id, u);
    ReplacedMembers(s.playerTeam, id, u);
    ReplacedMembers(s.enemyTeam, id, u);
  }

  /** Every member after replacing by id is an old member or `u`. */
  lemma ReplacedMembers(chars: seq<Character>, id: string, u: Character)
    ensures forall x :: x in ReplaceById(chars, id, u) ==> x in chars || x == u
  {
    forall x | x in ReplaceById(chars, id, u)
      ensures x in chars || x == u
    {
      var i :| 0 <= i < |chars| && ReplaceById(chars, id, u)[i] == x;
      assert chars[i] in chars;
    }
  }

  /** Updating the member's own team list is the same as updating the joined list: no one on the other team has its id. */
  lemma MoveRebuildsAll(s: GameState, id: string, u: Character)
    requires UniqueIds(All(s)) && TeamsTagged(s) && FindById(All(s), id).Some?
    ensures FindById(All(s), id).value.team == Player ==> ReplaceById(s.playerTeam, id, u) + s.enemyTeam == ReplaceById(All(s), id, u)
    ensures FindById(All(s), id).value.team == Enemy ==> s.playerTeam + ReplaceById(s.enemyTeam, id, u) == ReplaceById(All(s), id, u)
  {
    var all := All(s);
    var k := IndexOfId(all, id);
    if all[k].team == Player {
      forall e | e in s.enemyTeam
        ensures e.id != id
      {
        var j :| 0 <= j < |s.enemyTeam| && s.enemyTeam[j] == e;
        JoinedAt(s.playerTeam, s.enemyTeam, |s.playerTeam| + j);
        if e.id == id {
          FindMember(all, |s.playerTeam| + j);
        }
      }
      ReplaceInTeam(s.playerTeam, s.enemyTeam, id, u);
    } else {
      forall e | e in s.playerTeam
        ensures e.id != id
      {
        var j :| 0 <= j < |s.playerTeam| && s.playerTeam[j] == e;
        JoinedAt(s.playerTeam, s.enemyTeam, j);
        if e.id == id {
          FindMember(all, j);
        }
      }
      ReplaceInOtherTeam(s.playerTeam, s.enemyTeam, id, u);
    }
  }


  /** The board part of the move: clearing the old cell and filling the new one keeps the agreement. */
  lemma MoveKeepsAgreement(board: Grid<string>, all: seq<Character>, id: string, np: Position, board': Grid<string>)
    requires BoardAgrees(board, all)
    requires FindById(all, id).Some? && FindById(all, id).value.isAlive
    requires IsValidPosition(np) && At(board, np) == None
    requires board' == Put(Put(board, FindById(all, id).value.position, None), np, Some(id))
    ensures var c := FindById(all, id).value;
            BoardAgrees(board', ReplaceById(all, id, Moved(c, np)))
  {
    var c := FindById(all, id).value;
    var moved := Moved(c, np);
    var all' := ReplaceById(all, id, moved);
    assert UniqueIds(all') by {
      forall i | 0 <= i < |all'| ensures all'[i].id == all[i].id {}
    }
    forall x | x in all'
      ensures IsValidPosition(x.position) && (x.isAlive ==> At(board', x.position) == Some(x.id))
    {
      var i :| 0 <= i < |all'| && all'[i] == x;
      MovedMemberOnBoard(board, all, id, np, board', i);
    }
    forall p | IsValidPosition(p) && At(board', p).Some?
      ensures var j := IndexOfId(all', At(board', p).value); j >= 0 && all'[j].isAlive && all'[j].position == p
    {
      MovedCellOwner(board, all, id, np, board', p);
    }
  }

  lemma MovedCellOwner(board: Grid<string>, all: seq<Character>, id: string, np: Position, board': Grid<string>, p: Position)
    requires BoardAgrees(board, all)
    requires FindById(all, id).Some? && FindById(all, id).value.isAlive
    requires IsValidPosition(np) && At(board, np) == None
    requires board' == Put(Put(board, FindById(all, id).value.position, None), np, Some(id))
    requires IsValidPosition(p) && At(board', p).Some?
    ensures var c := FindById(all, id).value;
            var all' := ReplaceById(all, id, Moved(c, np));
            var j := IndexOfId(all', At(board', p).value);
            j >= 0 && all'[j].isAlive && all'[j].position == p
  {
    var c := FindById(all, id).value;
    var all' := ReplaceById(all, id, Moved(c, np));
    IndexOfIdSameIds(all, all', At(board', p).value);
    FindMember(all, IndexOfId(all, id));
    if p != np {
      assert p != c.position;
      assert At(board', p) == At(board, p);
      var j := IndexOfId(all, At(board, p).value);
      if all[j].id == id {
        FindMember(all, j);
      }
    }
  }

  lemma MovedMemberOnBoard(board: Grid<string>, all: seq<Character>, id: string, np: Position, board': Grid<string>, i: int)
    requires BoardAgrees(board, all)
    requires FindById(all, id).Some? && FindById(all, id).value.isAlive
    requires IsValidPosition(np) && At(board, np) == None
    requires board' == Put(Put(board, FindById(all, id).value.position, None), np, Some(id))
    requires 0 <= i < |all|
    ensures var c := FindById(all, id).value;
            var x := ReplaceById(all, id, Moved(c, np))[i];
            IsValidPosition(x.position) && (x.isAlive ==> At(board', x.position) == Some(x.id))
  {
    var c := FindById(all, id).value;
    assert all[i] in all;
    if all[i].id != id && all[i].isAlive {
      assert At(board, all[i].position) == Some(all[i].id);
      assert all[i].position != np;
      FindMember(all, IndexOfId(all, id));
      assert all[i].position != c.position;
    }
  }
}
