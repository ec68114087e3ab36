/**
 * lib/ai/enemyAI.ts: the opponent of the value-based engine. On the enemy's
 * turn it acts for the enemy whose id is current in the turn order: it picks
 * the closest living player, strikes it when it is within the class's range,
 * and otherwise moves to the free reachable cell closest to that player.
 */
module EnemyAI {
  import opened Wrappers
  import opened Geometry
  import opened Constants
  import opened Types
  import opened Characters
  import opened Utils

  datatype EnemyAction = MoveAction | AttackAction | EndTurnAction

  /** The answer of getEnemyMove; the optional fields are absent when `None`. */
  datatype EnemyMove = EnemyMove(
    action: EnemyAction,
    characterId: Option<string>,
    position: Option<Position>,
    targetPosition: Option<Position>,
    isMelee: Option<bool>)

  const END_TURN: EnemyMove := EnemyMove(EndTurnAction, None, None, None, None)

  /** The first member with this id that is alive (the find of getEnemyMove). */
  function FindLiving(chars: seq<Character>, id: string): (r: Option<Character>)
    ensures r.None? <==> forall c :: c in chars ==> !(c.id == id && c.isAlive)
    ensures r.Some? ==> r.value.id == id && r.value.isAlive
    ensures r.Some? ==>
      exists i :: 0 <= i < |chars| && chars[i] == r.value && forall j :: 0 <= j < i ==> !(chars[j].id == id && chars[j].isAlive)
  {
    if chars == [] then None
    else if chars[0].id == id && chars[0].isAlive then Some(chars[0])
    else
      var r := FindLiving(chars[1..], id);
      assert forall c :: c in chars ==> c == chars[0] || c in chars[1..];
      if r.Some? then
        var i :| 0 <= i < |chars[1..]| && chars[1..][i] == r.value &&
                 forall j :: 0 <= j < i ==> !(chars[1..][j].id == id && chars[1..][j].isAlive);
        assert chars[i + 1] == r.value;
        r
      else r
  }

  /**
   * The enemy whose turn it is: the living enemy with the id at the current
   * index of the turn order. An index outside the order names nobody.
   */
  function CurrentEnemy(s: GameState): (r: Option<Character>)
    ensures r.Some? ==> r.value in s.enemyTeam && r.value.isAlive
    ensures r.Some? ==> 0 <= s.currentTurnOrderIndex < |s.turnOrder| && r.value.id == s.turnOrder[s.currentTurnOrderIndex]
  {
    if 0 <= s.currentTurnOrderIndex < |s.turnOrder| then FindLiving(s.enemyTeam, s.turnOrder[s.currentTurnOrderIndex]) else None
  }

  /**
   * The isMelee flag each class attaches to its attack at distance `d`: never
   * for a mage, and always one whose reach (one cell in melee, four otherwise)
   * covers any distance within the class's range.
   */
  function MeleeFor(kind: CharacterType, d: int): (r: bool)
    ensures kind == Mage ==> !r
    ensures d <= AttackRange(kind) ==> d <= (if r then 1 else 4)
  {
    match kind
    case Mage => false
    case Warrior => true
    case Thief => d <= 1
    case Royal => true
  }

  // ---------------------------------------------------------------- findBestMove

  /** A cell the character could move to: within its movement but not its own cell, on the board, free. */
  predicate IsMoveCandidate(c: Character, q: Position, board: Grid<string>)
    requires IsGrid(board)
  {
    1 <= Distance(c.position, q) <= c.movement && IsValidPosition(q) && At(board, q) == None
  }

  /** The order in which findBestMove visits cells: column by column, each from top to bottom. */
  predicate VisitedBefore(q: Position, r: Position)
  {
    q.x < r.x || (q.x == r.x && q.y < r.y)
  }

  /**
   * The answer findBestMove must give: nothing exactly when no cell is a
   * candidate; otherwise a candidate closest to the target, and the first
   * visited among equally close ones.
   */
  ghost predicate IsBestMove(c: Character, target: Position, board: Grid<string>, r: Option<Position>)
    requires IsGrid(board)
  {
    && (r.None? <==> forall q :: !IsMoveCandidate(c, q, board))
    && (r.Some? ==>
          && IsMoveCandidate(c, r.value, board)
          && forall q :: IsMoveCandidate(c, q, board) ==>
               && Distance(r.value, target) <= Distance(q, target)
               && (VisitedBefore(q, r.value) ==> Distance(r.value, target) < Distance(q, target)))
  }

  /** At most one answer meets `IsBestMove`. */
  lemma BestMoveUnique(c: Character, target: Position, board: Grid<string>, r1: Option<Position>, r2: Option<Position>)
    requires IsGrid(board)
    requires IsBestMove(c, target, board, r1) && IsBestMove(c, target, board, r2)
    ensures r1 == r2
  {
    if r1.Some? && r2.Some? {
      var p, q := r1.value, r2.value;
      assert IsMoveCandidate(c, q, board) && IsMoveCandidate(c, p, board);
      assert VisitedBefore(p, q) ==> Distance(q, target) < Distance(p, target);
      assert VisitedBefore(q, p) ==> Distance(p, target) < Distance(q, target);
    }
  }

  /** Cell `q` was visited before the offsets (`dx`, `dy`) from the character's cell. */
  predicate Visited(c: Character, q: Position, dx: int, dy: int)
  {
    var ox, oy := q.x - c.position.x, q.y - c.position.y;
    ox < dx || (ox == dx && oy < dy)
  }

  /** `best` is the answer so far, over the candidates visited before (`dx`, `dy`). */
  ghost predicate BestSoFar(c: Character, target: Position, board: Grid<string>, best: Option<Position>, dx: int, dy: int)
    requires IsGrid(board)
  {
    && (best.None? ==> forall q :: IsMoveCandidate(c, q, board) ==> !Visited(c, q, dx, dy))
    && (best.Some? ==>
          && IsMoveCandidate(c, best.value, board)
          && Visited(c, best.value, dx, dy)
          && forall q :: IsMoveCandidate(c, q, board) && Visited(c, q, dx, dy) ==>
               && Distance(best.value, target) <= Distance(q, target)
               && (VisitedBefore(q, best.value) ==> Distance(best.value, target) < Distance(q, target)))
  }

  /** One visit: a candidate replaces the answer so far only when strictly closer to the target. */
  function Consider(c: Character, target: Position, board: Grid<string>, best: Option<Position>, q: Position): Option<Position>
    requires IsGrid(board)
  {
    if IsMoveCandidate(c, q, board) && (best.None? || Distance(q, target) < Distance(best.value, target)) then Some(q) else best
  }

  /** Visiting the cell at offsets (`dx`, `dy`) extends the answer so far by that cell. */
  lemma ConsiderExtends(c: Character, target: Position, board: Grid<string>, best: Option<Position>, dx: int, dy: int)
    requires IsGrid(board)
    requires BestSoFar(c, target, board, best, dx, dy)
    ensures BestSoFar(c, target, board, Consider(c, target, board, best, Position(c.position.x + dx, c.position.y + dy)), dx, dy + 1)
  {
    var q0 := Position(c.position.x + dx, c.position.y + dy);
    forall q | IsMoveCandidate(c, q, board)
      ensures Visited(c, q, dx, dy + 1) <==> Visited(c, q, dx, dy) || q == q0
    {
    }
  }

  /** The inner loop of findBestMove: the column at offset `dx`. */
  method VisitColumn(c: Character, target: Position, board: Grid<string>, dx: int, best0: Option<Position>)
    returns (best: Option<Position>)
    requires IsGrid(board)
    requires 0 <= c.movement
    requires BestSoFar(c, target, board, best0, dx, -c.movement)
    ensures BestSoFar(c, target, board, best, dx + 1, -c.movement)
  {
    best := best0;
    var movement := c.movement;
    var dy := -movement;
    while dy <= movement
      invariant -movement <= dy <= movement + 1
      invariant BestSoFar(c, target, board, best, dx, dy)
    {
      best := VisitCell(c, target, board, best, dx, dy);
      dy := dy + 1;
    }
    ColumnComplete(c, target, board, best, dx);
  }

  /** The body of the inner loop: the cell at offsets (`dx`, `dy`) replaces the answer so far when it is a strictly closer candidate. */
  method VisitCell(c: Character, target: Position, board: Grid<string>, best: Option<Position>, dx: int, dy: int)
    returns (next: Option<Position>)
    requires IsGrid(board)
    requires BestSoFar(c, target, board, best, dx, dy)
    ensures BestSoFar(c, target, board, next, dx, dy + 1)
  {
    ConsiderExtends(c, target, board, best, dx, dy);
    var manhattanDist := Abs(dx) + Abs(dy);
    var q := Position(c.position.x + dx, c.position.y + dy);
    assert Distance(c.position, q) == manhattanDist;
    next := best;
    if manhattanDist != 0 && manhattanDist <= c.movement && IsValidPosition(q) && At(board, q) == None {
      var distToTarget := Distance(q, target);
      if best.None? || distToTarget < Distance(best.value, target) {
        next := Some(q);
      }
    }
  }

  /** Past the last row within the movement, the column is done: the answer so far covers the next column's start. */
  lemma ColumnComplete(c: Character, target: Position, board: Grid<string>, best: Option<Position>, dx: int)
    requires IsGrid(board) && 0 <= c.movement
    requires BestSoFar(c, target, board, best, dx, c.movement + 1)
    ensures BestSoFar(c, target, board, best, dx + 1, -c.movement)
  {
    forall q | IsMoveCandidate(c, q, board)
      ensures Visited(c, q, dx + 1, -c.movement) <==> Visited(c, q, dx, c.movement + 1)
    {
    }
  }

  /**
   * findBestMove: visits every offset within the movement and keeps the
   * first free board cell of least distance to the target. "No cell yet"
   * stands for the source's infinite starting distance.
   */
  method FindBestMove(c: Character, target: Position, board: Grid<string>) returns (r: Option<Position>)
    requires IsGrid(board)
    ensures IsBestMove(c, target, board, r)
  {
    var movement := c.movement;
    r := None;
    var dx := -movement;
    while dx <= movement
      invariant -movement <= dx
      invariant dx <= movement + 1 || movement < 0
      invariant BestSoFar(c, target, board, r, dx, -movement)
    {
      r := VisitColumn(c, target, board, dx, r);
      dx := dx + 1;
    }
    assert forall q :: IsMoveCandidate(c, q, board) ==> Visited(c, q, dx, -movement);
    if r.Some? {
      forall q | IsMoveCandidate(c, q, board) && VisitedBefore(q, r.value)
        ensures Distance(r.value, target) < Distance(q, target)
      {
        assert Visited(c, q, dx, -movement);
      }
    }
  }

  // ---------------------------------------------------------------- getEnemyMove

  /** What getEnemyMove settles on before looking for a cell to move to. */
  datatype Plan = Idle | Strike(actor: Character, target: Character) | Approach(actor: Character, target: Character)

  /**
   * Nothing to do outside the enemy's turn, after the game is over, without a
   * current enemy or without living players; otherwise the closest living
   * player (the first among equally close ones) is struck when within the
   * class's range, or approached when the enemy has movement left.
   */
  function EnemyPlan(s: GameState): Plan
  {
    if s.currentTurn != Enemy || s.gameOver then Idle
    else match CurrentEnemy(s)
      case None => Idle
      case Some(actor) =>
        var targets := AliveOnly(s.playerTeam);
        if targets == [] then Idle
        else
          var target := targets[ClosestIndex(targets, actor.position)];
          if Distance(actor.position, target.position) <= AttackRange(actor.kind) then Strike(actor, target)
          else if actor.movement > 0 then Approach(actor, target)
          else Idle
  }

  /** The answers getEnemyMove may give in state `s`. */
  ghost predicate IsEnemyDecision(s: GameState, m: EnemyMove)
    requires IsGrid(s.board)
  {
    match EnemyPlan(s)
    case Idle => m == END_TURN
    case Strike(actor, target) =>
      var d := Distance(actor.position, target.position);
      m == EnemyMove(AttackAction, Some(actor.id), None, Some(target.position), Some(MeleeFor(actor.kind, d)))
    case Approach(actor, target) =>
      || (m == END_TURN && IsBestMove(actor, target.position, s.board, None))
      || (&& m.action == MoveAction && m.characterId == Some(actor.id) && m.position.Some?
          && m.targetPosition.None? && m.isMelee.None?
          && IsBestMove(actor, target.position, s.board, m.position))
  }

  /**
   * The first living player closest to `from`, as the loop of getEnemyMove
   * finds it with a strict comparison.
   */
  method ClosestTarget(targets: seq<Character>, from: Position) returns (closest: Character, closestDistance: int)
    requires targets != []
    ensures closest == targets[ClosestIndex(targets, from)]
    ensures closestDistance == Distance(from, closest.position)
  {
    var found: Option<Character> := None;
    ghost var k := 0;
    closestDistance := 0;
    for i := 0 to |targets|
      invariant found.None? <==> i == 0
      invariant found.Some? ==> k < i && found.value == targets[k] && closestDistance == Distance(from, targets[k].position)
      invariant found.Some? ==> forall j :: 0 <= j < i ==> closestDistance <= Distance(from, targets[j].position)
      invariant found.Some? ==> forall j :: 0 <= j < k ==> closestDistance < Distance(from, targets[j].position)
    {
      var dist := Distance(from, targets[i].position);
      if found.None? || dist < closestDistance {
        closestDistance := dist;
        found := Some(targets[i]);
        k := i;
      }
    }
    closest := found.value;
    var c := ClosestIndex(targets, from);
    var dk, dc := Distance(from, targets[k].position), Distance(from, targets[c].position);
    assert k < c ==> dk > dc;
    assert c < k ==> dc > dk;
  }

  /**
   * getEnemyMove. The source is asynchronous but awaits nothing. After the
   * closest-target loop the source also ends the turn when no target was
   * found; with at least one living player that cannot happen, and the
   * model has no such branch.
   */
  method GetEnemyMove(s: GameState) returns (m: EnemyMove)
    requires IsGrid(s.board)
    ensures IsEnemyDecision(s, m)
  {
    if s.currentTurn != Enemy || s.gameOver {
      return END_TURN;
    }
    var currentCharacter := CurrentEnemy(s);
    if currentCharacter.None? {
      return END_TURN;
    }
    var actor := currentCharacter.value;
    var targets := AliveOnly(s.playerTeam);
    if targets == [] {
      return END_TURN;
    }
    var closestTarget, closestDistance := ClosestTarget(targets, actor.position);
    match actor.kind {
      case Mage =>
        if closestDistance <= AttackRange(Mage) {
          return EnemyMove(AttackAction, Some(actor.id), None, Some(closestTarget.position), Some(false));
        }
      case Warrior =>
        if closestDistance <= AttackRange(Warrior) {
          return EnemyMove(AttackAction, Some(actor.id), None, Some(closestTarget.position), Some(true));
        }
      case Thief =>
        if closestDistance <= AttackRange(Thief) {
          var isMelee := closestDistance <= 1;
          return EnemyMove(AttackAction, Some(actor.id), None, Some(closestTarget.position), Some(isMelee));
        }
      case Royal =>
        if closestDistance <= AttackRange(Royal) {
          return EnemyMove(AttackAction, Some(actor.id), None, Some(closestTarget.position), Some(true));
        }
    }
    if actor.movement > 0 {
      var movePos := FindBestMove(actor, closestTarget.position, s.board);
      if movePos.Some? {
        return EnemyMove(MoveAction, Some(actor.id), movePos, None, None);
      }
    }
    return END_TURN;
  }

  /** The enemy ends its turn outside its own turn, after the game is over and when no player is alive. */
  lemma EnemyIdlesWhenNothingToDo(s: GameState, m: EnemyMove)
    requires IsGrid(s.board)
    requires IsEnemyDecision(s, m)
    ensures s.currentTurn != Enemy || s.gameOver || !AnyAlive(s.playerTeam) ==> m == END_TURN
  {
    var targets := AliveOnly(s.playerTeam);
    if targets != [] {
      assert targets[0] in targets;
    }
  }

  /** The target getEnemyMove picks is a living player no farther than any other living player. */
  lemma ClosestIsLivingAndNearest(players: seq<Character>, from: Position)
    requires AliveOnly(players) != []
    ensures var t := AliveOnly(players)[ClosestIndex(AliveOnly(players), from)];
      && t in players && t.isAlive
      && forall u :: u in players && u.isAlive ==> Distance(from, t.position) <= Distance(from, u.position)
  {
    var targets := AliveOnly(players);
    var t := targets[ClosestIndex(targets, from)];
    assert t in targets;
    forall u | u in players && u.isAlive
      ensures Distance(from, t.position) <= Distance(from, u.position)
    {
      var j :| 0 <= j < |targets| && targets[j] == u;
    }
  }

  /**
   * An attack comes from the living enemy named by the turn order and aims
   * at the cell of a living player within the class's range, with no living
   * player closer; with the flag it carries it passes the melee/ranged reach
   * test of lib/game/utils.ts.
   */
  lemma EnemyAttackLegal(s: GameState, m: EnemyMove)
    requires IsGrid(s.board)
    requires IsEnemyDecision(s, m)
    requires m.action == AttackAction
    ensures CurrentEnemy(s).Some? && m.characterId == Some(CurrentEnemy(s).value.id)
    ensures m.targetPosition.Some? && m.isMelee.Some?
    ensures var actor := CurrentEnemy(s).value;
      exists t :: t in s.playerTeam && t.isAlive && t.position == m.targetPosition.value
        && Distance(actor.position, t.position) <= AttackRange(actor.kind)
        && CanAttack(actor, t, m.isMelee.value)
        && forall u :: u in s.playerTeam && u.isAlive ==> Distance(actor.position, t.position) <= Distance(actor.position, u.position)
  {
    var actor := CurrentEnemy(s).value;
    var targets := AliveOnly(s.playerTeam);
    assert EnemyPlan(s).Strike?;
    var t := targets[ClosestIndex(targets, actor.position)];
    assert EnemyPlan(s) == Strike(actor, t);
    ClosestIsLivingAndNearest(s.playerTeam, actor.position);
    MeleeFlagReaches(actor, t);
  }

  /** The melee flag getEnemyMove picks lets a target within the class's range pass the reach test. */
  lemma MeleeFlagReaches(actor: Character, t: Character)
    requires Distance(actor.position, t.position) <= AttackRange(actor.kind)
    ensures CanAttack(actor, t, MeleeFor(actor.kind, Distance(actor.position, t.position)))
  {
  }

  /** A move answers an approach of the closest living player, with a best cell. */
  lemma MoveComesFromApproach(s: GameState, m: EnemyMove)
    requires IsGrid(s.board)
    requires IsEnemyDecision(s, m)
    requires m.action == MoveAction
    ensures CurrentEnemy(s).Some? && AliveOnly(s.playerTeam) != []
    ensures var actor := CurrentEnemy(s).value;
      var targets := AliveOnly(s.playerTeam);
      var t := targets[ClosestIndex(targets, actor.position)];
      && EnemyPlan(s) == Approach(actor, t)
      && Distance(actor.position, t.position) > AttackRange(actor.kind)
      && m.characterId == Some(actor.id)
      && m.position.Some? && IsBestMove(actor, t.position, s.board, m.position)
  {
  }

  /**
   * A move goes to a cell the enemy may move to (canMoveTo of
   * lib/game/characters.ts), not its own cell, and no farther from a living
   * player out of its reach than any other such cell.
   */
  lemma EnemyMoveLegal(s: GameState, m: EnemyMove)
    requires IsGrid(s.board)
    requires IsEnemyDecision(s, m)
    requires m.action == MoveAction
    ensures CurrentEnemy(s).Some? && m.characterId == Some(CurrentEnemy(s).value.id) && m.position.Some?
    ensures var actor := CurrentEnemy(s).value;
      && CanMoveTo(actor, m.position.value, s.board) && m.position.value != actor.position
      && exists t :: t in s.playerTeam && t.isAlive && Distance(actor.position, t.position) > AttackRange(actor.kind)
           && forall q :: CanMoveTo(actor, q, s.board) && q != actor.position ==>
                Distance(m.position.value, t.position) <= Distance(q, t.position)
  {
    MoveComesFromApproach(s, m);
    var actor := CurrentEnemy(s).value;
    var targets := AliveOnly(s.playerTeam);
    ClosestIsLivingAndNearest(s.playerTeam, actor.position);
    var t := targets[ClosestIndex(targets, actor.position)];
    assert IsBestMove(actor, t.position, s.board, m.position);
    assert IsMoveCandidate(actor, m.position.value, s.board);
    forall q | CanMoveTo(actor, q, s.board) && q != actor.position
      ensures Distance(m.position.value, t.position) <= Distance(q, t.position)
    {
      assert IsMoveCandidate(actor, q, s.board);
    }
  }
}
