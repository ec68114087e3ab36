/**
 * lib/game/ai.ts: the simple opponent of the object-based engine. It picks
 * the enemy with the most health, then walks the living players in order and
 * answers with the first thing it can do against one of them: strike it, or
 * take one step towards it; when nothing applies it ends its turn.
 */
module AI {
  import opened Wrappers
  import opened Geometry
  import opened Types
  import opened Characters
  import opened BoardTypes
  import opened Combat

  datatype AIAction = Move | Attack | EndTurnAction

  datatype AIMove = AIMove(characterId: string, action: AIAction, targetPosition: Option<Position>, attackPosition: Option<Position>)

  /** The characters with health left, in their order (the filter on health > 0). */
  function Healthy(chars: seq<Character>): (r: seq<Character>)
    ensures forall c :: c in r <==> c in chars && c.health > 0
  {
    if chars == [] then []
    else Healthy(chars[..|chars| - 1]) + (if chars[|chars| - 1].health > 0 then [chars[|chars| - 1]] else [])
  }

  /**
   * The reduce that keeps the best so far and replaces it only by a character
   * with strictly more health; written as its last step applied to the
   * reduction of all but the last element.
   */
  function Strongest(chars: seq<Character>): (r: Character)
    requires chars != []
    ensures r in chars
    ensures forall c :: c in chars ==> c.health <= r.health
  {
    if |chars| == 1 then chars[0]
    else
      assert chars == chars[..|chars| - 1] + [chars[|chars| - 1]];
      var best := Strongest(chars[..|chars| - 1]);
      var current := chars[|chars| - 1];
      if current.health > best.health then current else best
  }

  /**
   * The actor getAIMove selects: none exactly when no enemy has health left,
   * otherwise an enemy with health left and with the most health among those.
   */
  function SelectActor(enemies: seq<Character>): (r: Option<Character>)
    ensures r.None? <==> forall e :: e in enemies ==> e.health <= 0
    ensures r.Some? ==>
      && r.value in enemies && r.value.health > 0
      && forall e :: e in enemies && e.health > 0 ==> e.health <= r.value.health
  {
    var alive := Healthy(enemies);
    if alive == [] then None
    else
      assert alive[0] in alive;
      Some(Strongest(alive))
  }

  /** Filtering one more character appends it exactly when it has health left. */
  lemma HealthySnoc(init: seq<Character>, last: Character)
    ensures Healthy(init + [last]) == Healthy(init) + (if last.health > 0 then [last] else [])
  {
    assert (init + [last])[..|init|] == init;
  }

  /** Reducing one more character replaces the best so far only on strictly more health. */
  lemma StrongestSnoc(chars: seq<Character>, last: Character)
    requires chars != []
    ensures Strongest(chars + [last]) == if last.health > Strongest(chars).health then last else Strongest(chars)
  {
    assert (chars + [last])[..|chars|] == chars;
  }

  /** The selection on one more enemy, in terms of the selection before it. */
  lemma SelectSnoc(init: seq<Character>, last: Character)
    ensures SelectActor(init + [last]) ==
      if last.health <= 0 then SelectActor(init)
      else if SelectActor(init).None? || last.health > SelectActor(init).value.health then Some(last)
      else SelectActor(init)
  {
    HealthySnoc(init, last);
    var alive := Healthy(init);
    if last.health > 0 {
      assert Healthy(init + [last]) == alive + [last];
      if alive != [] {
        StrongestSnoc(alive, last);
        assert SelectActor(init) == Some(Strongest(alive));
        assert SelectActor(init + [last]) == Some(Strongest(alive + [last]));
      } else {
        assert alive + [last] == [last];
        assert SelectActor(init) == None;
        assert SelectActor(init + [last]) == Some(last);
      }
    } else {
      assert Healthy(init + [last]) == alive;
    }
  }

  /** Among the enemies with the most health, the earliest one is selected. */
  lemma {:induction false} SelectIsEarliest(enemies: seq<Character>)
    ensures SelectActor(enemies).Some? ==>
      exists i :: 0 <= i < |enemies| && enemies[i] == SelectActor(enemies).value &&
        forall j :: 0 <= j < i && enemies[j].health > 0 ==> enemies[j].health < SelectActor(enemies).value.health
  {
    if enemies != [] {
      var init, last := enemies[..|enemies| - 1], enemies[|enemies| - 1];
      assert enemies == init + [last];
      SelectSnoc(init, last);
      var before := SelectActor(init);
      if last.health > 0 && (before.None? || last.health > before.value.health) {
        LastIsEarliest(init, last);
      } else if before.Some? {
        SelectIsEarliest(init);
        EarliestStays(init, last, before.value);
      }
    }
  }

  /** An enemy that overtakes every earlier one is the earliest with its health. */
  lemma LastIsEarliest(init: seq<Character>, last: Character)
    requires last.health > 0
    requires SelectActor(init).None? || last.health > SelectActor(init).value.health
    ensures var enemies := init + [last];
      forall j :: 0 <= j < |enemies| - 1 && enemies[j].health > 0 ==> enemies[j].health < last.health
  {
    var enemies := init + [last];
    forall j | 0 <= j < |enemies| - 1 && enemies[j].health > 0
      ensures enemies[j].health < last.health
    {
      assert enemies[j] == init[j] && init[j] in init;
    }
    assert enemies[|enemies| - 1] == last;
  }

  /** An earliest position in `init` is still one after appending an element. */
  lemma EarliestStays(init: seq<Character>, last: Character, sel: Character)
    requires exists i :: 0 <= i < |init| && init[i] == sel &&
                         forall j :: 0 <= j < i && init[j].health > 0 ==> init[j].health < sel.health
    ensures var enemies := init + [last];
      exists i :: 0 <= i < |enemies| && enemies[i] == sel &&
        forall j :: 0 <= j < i && enemies[j].health > 0 ==> enemies[j].health < sel.health
  {
    var i :| 0 <= i < |init| && init[i] == sel &&
      forall j :: 0 <= j < i && init[j].health > 0 ==> init[j].health < sel.health;
    var enemies := init + [last];
    assert enemies[i] == sel;
    assert forall j :: 0 <= j < i ==> enemies[j] == init[j];
  }

  /** Per coordinate, the sign of the difference: -1, 0 or +1 towards the target. */
  function Toward(from: int, to: int): (d: int)
    ensures -1 <= d <= 1
    ensures d == 0 <==> from == to
    ensures d > 0 <==> to > from
  {
    if to > from then 1 else if to < from then -1 else 0
  }

  /** The cell one step from `from` towards `to`, diagonal steps included. */
  function Step(from: Position, to: Position): (p: Position)
    ensures Abs(p.x - from.x) <= 1 && Abs(p.y - from.y) <= 1
    ensures Distance(from, p) <= 2
  {
    Position(from.x + Toward(from.x, to.x), from.y + Toward(from.y, to.y))
  }

  /** A step towards a different cell brings the actor closer by one or two. */
  lemma StepApproaches(from: Position, to: Position)
    requires from != to
    ensures Distance(Step(from, to), to) < Distance(from, to)
    ensures Distance(from, to) - Distance(Step(from, to), to) == Distance(from, Step(from, to))
  {
  }

  /**
   * The loop of getAIMove over the living players, as a function: the answer
   * against the first target that allows a strike or a step, if any.
   */
  function Decide(sel: Character, targets: seq<Character>, board: Grid<Unit>): Option<AIMove>
    requires IsGrid(board)
  {
    if targets == [] then None
    else
      var target := targets[0];
      var newPos := Step(sel.position, target.position);
      if CanStrike(sel, target.position) then Some(AIMove(sel.id, Attack, None, Some(target.position)))
      else if sel.movement > 0 && Distance(sel.position, target.position) > 1 && CanMoveTo(sel, newPos, board) then
        Some(AIMove(sel.id, Move, Some(newPos), None))
      else Decide(sel, targets[1..], board)
  }

  /** The whole decision of getAIMove on the field values of both teams. */
  function AIDecision(enemies: seq<Character>, players: seq<Character>, board: Grid<Unit>): AIMove
    requires IsGrid(board)
  {
    match SelectActor(enemies)
    case None => AIMove("", EndTurnAction, None, None)
    case Some(sel) =>
      match Decide(sel, Healthy(players), board)
      case Some(m) => m
      case None => AIMove(sel.id, EndTurnAction, None, None)
  }

  /**
   * getAIMove. The source is asynchronous but awaits nothing; the model is
   * the synchronous decision over the current field values of the objects.
   */
  method GetAIMove(s: BoardState) returns (m: AIMove)
    requires IsGrid(s.board)
    ensures m == AIDecision(States(s.enemyTeam), States(s.playerTeam), s.board)
  {
    var aliveEnemies := Healthy(States(s.enemyTeam));
    if aliveEnemies == [] {
      return AIMove("", EndTurnAction, None, None);
    }
    var selected := Strongest(aliveEnemies);
    var playerCharacters := Healthy(States(s.playerTeam));
    if playerCharacters == [] {
      return AIMove(selected.id, EndTurnAction, None, None);
    }
    var k := 0;
    while k < |playerCharacters|
      invariant 0 <= k <= |playerCharacters|
      invariant Decide(selected, playerCharacters, s.board) == Decide(selected, playerCharacters[k..], s.board)
    {
      var target := playerCharacters[k];
      assert playerCharacters[k..][0] == target;
      assert playerCharacters[k..][1..] == playerCharacters[k + 1..];
      if CanStrike(selected, target.position) {
        return AIMove(selected.id, Attack, None, Some(target.position));
      }
      if selected.movement > 0 && Distance(selected.position, target.position) > 1 {
        var newPos := Step(selected.position, target.position);
        if CanMoveTo(selected, newPos, s.board) {
          return AIMove(selected.id, Move, Some(newPos), None);
        }
      }
      k := k + 1;
    }
    return AIMove(selected.id, EndTurnAction, None, None);
  }

  /**
   * What the answers of `Decide` guarantee: a strike is aimed at the cell of
   * one of the targets and is within reach; a step needs movement left and a
   * target more than one cell away, goes one cell towards it per coordinate,
   * and lands on a free cell of the board within the actor's movement.
   */
  lemma {:induction false} DecideIsLegal(sel: Character, targets: seq<Character>, board: Grid<Unit>)
    requires IsGrid(board)
    ensures Decide(sel, targets, board).Some? ==> Decide(sel, targets, board).value.characterId == sel.id
    ensures Decide(sel, targets, board).Some? ==> Decide(sel, targets, board).value.action != EndTurnAction
    ensures Decide(sel, targets, board).Some? && Decide(sel, targets, board).value.action == Attack ==>
      var pos := Decide(sel, targets, board).value.attackPosition;
      pos.Some? && CanStrike(sel, pos.value) && exists t :: t in targets && t.position == pos.value
    ensures Decide(sel, targets, board).Some? && Decide(sel, targets, board).value.action == Move ==>
      var pos := Decide(sel, targets, board).value.targetPosition;
      && pos.Some? && sel.movement > 0 && CanMoveTo(sel, pos.value, board)
      && IsValidPosition(pos.value) && At(board, pos.value) == None && Distance(sel.position, pos.value) <= sel.movement
      && exists t :: t in targets && Distance(sel.position, t.position) > 1 && pos.value == Step(sel.position, t.position)
    decreases |targets|
  {
    if targets != [] {
      DecideIsLegal(sel, targets[1..], board);
      if Decide(sel, targets, board) == Decide(sel, targets[1..], board) {
        forall t | t in targets[1..]
          ensures t in targets
        {
        }
      }
    }
  }

  /**
   * getAIMove's answers: with no enemy standing it ends the turn for nobody;
   * otherwise it acts for the selected enemy, and an attack or a move is one
   * `DecideIsLegal` allows against a living player.
   */
  lemma AIDecisionIsLegal(enemies: seq<Character>, players: seq<Character>, board: Grid<Unit>)
    requires IsGrid(board)
    ensures (forall e :: e in enemies ==> e.health <= 0) ==> AIDecision(enemies, players, board) == AIMove("", EndTurnAction, None, None)
    ensures SelectActor(enemies).Some? ==> AIDecision(enemies, players, board).characterId == SelectActor(enemies).value.id
    ensures SelectActor(enemies).Some? && (forall p :: p in players ==> p.health <= 0) ==>
      AIDecision(enemies, players, board).action == EndTurnAction
    ensures AIDecision(enemies, players, board).action == Attack ==>
      var m := AIDecision(enemies, players, board);
      m.attackPosition.Some? && CanStrike(SelectActor(enemies).value, m.attackPosition.value)
      && exists t :: t in players && t.health > 0 && t.position == m.attackPosition.value
    ensures AIDecision(enemies, players, board).action == Move ==>
      var m := AIDecision(enemies, players, board);
      var sel := SelectActor(enemies).value;
      && m.targetPosition.Some? && sel.movement > 0 && CanMoveTo(sel, m.targetPosition.value, board)
      && exists t :: t in players && t.health > 0 && Distance(sel.position, t.position) > 1
                     && m.targetPosition.value == Step(sel.position, t.position)
  {
    if SelectActor(enemies).Some? {
      DecideIsLegal(SelectActor(enemies).value, Healthy(players), board);
      if forall p :: p in players ==> p.health <= 0 {
        assert Healthy(players) == [];
      }
    }
  }
}
