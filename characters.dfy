/** lib/game/characters.ts: creating a unit, the per-turn reset, the alive test and the move check. */
module Characters {
  import opened Wrappers
  import opened Geometry
  import opened Constants
  import opened Types

  function TeamName(t: Team): string
  {
    match t
    case Player => "player"
    case Enemy => "enemy"
  }

  function KindName(k: CharacterType): string
  {
    match k
    case Warrior => "warrior"
    case Mage => "mage"
    case Thief => "thief"
    case Royal => "royal"
  }

  /** The default id: team name, class name and the clock reading `now`, joined by dashes. */
  function DefaultId(team: Team, kind: CharacterType, now: string): string
  {
    TeamName(team) + "-" + KindName(kind) + "-" + now
  }

  /**
   * createCharacter: a unit with the class's base stats, at full health and full
   * movement, alive, without boosts or shield; warriors get one armor, mages one
   * regeneration. An absent or empty `id` falls back to DefaultId.
   */
  function CreateCharacter(kind: CharacterType, team: Team, position: Position, id: Option<string>, now: string): (c: Character)
    ensures c.kind == kind && c.team == team && c.position == position
    ensures c.id == (if id.Some? && id.value != "" then id.value else DefaultId(team, kind, now))
    ensures c.health == c.maxHealth == CharacterStats(kind).health
    ensures c.movement == c.maxMovement == CharacterStats(kind).movement
    ensures c.isAlive && c.damageBoost == 0 && c.movementBoost == 0 && c.shield == 0
    ensures c.attacksRemaining == CharacterStats(kind).attacksPerTurn
    ensures c.initiative == CharacterStats(kind).initiative
    ensures c.armor == (if kind == Warrior then 1 else 0)
    ensures c.regeneration == (if kind == Mage then 1 else 0)
  {
    var stats := CharacterStats(kind);
    Character(
      id := if id.Some? && id.value != "" then id.value else DefaultId(team, kind, now),
      kind := kind,
      team := team,
      position := position,
      health := stats.health,
      maxHealth := stats.health,
      movement := stats.movement,
      maxMovement := stats.movement,
      isAlive := true,
      damageBoost := 0,
      movementBoost := 0,
      attacksRemaining := stats.attacksPerTurn,
      initiative := stats.initiative,
      armor := if kind == Warrior then 1 else 0,
      shield := 0,
      regeneration := if kind == Mage then 1 else 0)
  }

  /** A freshly created unit satisfies the character invariant, and its attack count is the class's ATTACKS_PER_TURN. */
  lemma CreatedCharacterOk(kind: CharacterType, team: Team, position: Position, id: Option<string>, now: string)
    ensures CharacterOk(CreateCharacter(kind, team, position, id, now))
    ensures CreateCharacter(kind, team, position, id, now).attacksRemaining == AttacksPerTurn(kind)
    ensures IsCharacterAlive(CreateCharacter(kind, team, position, id, now))
  {
  }

  /** Generated ids of different team/class pairs differ whatever the clock readings. */
  lemma DefaultIdsDistinct(t1: Team, k1: CharacterType, n1: string, t2: Team, k2: CharacterType, n2: string)
    requires (t1, k1) != (t2, k2)
    ensures DefaultId(t1, k1, n1) != DefaultId(t2, k2, n2)
  {
    var a, b := DefaultId(t1, k1, n1), DefaultId(t2, k2, n2);
    if t1 != t2 {
      assert a[0] != b[0];
    } else {
      var n := |TeamName(t1)| + 1;
      assert a[n] == KindName(k1)[0];
      assert b[n] == KindName(k2)[0];
    }
  }

  /**
   * resetCharacterTurn: movement is refilled to maxMovement plus the pending
   * movement boost, the boost is spent, and attacks go back to two for a
   * warrior and one otherwise; nothing else changes.
   */
  function ResetCharacterTurn(c: Character): (r: Character)
    ensures r.movement == c.maxMovement + c.movementBoost
    ensures r.movementBoost == 0
    ensures r.attacksRemaining == (if c.kind == Warrior then 2 else 1)
    ensures r == c.(movement := r.movement, movementBoost := 0, attacksRemaining := r.attacksRemaining)
  {
    c.(movement := c.maxMovement + c.movementBoost,
       movementBoost := 0,
       attacksRemaining := if c.kind == Warrior then 2 else 1)
  }

  /** The reset keeps the character invariant and restores the class's ATTACKS_PER_TURN. */
  lemma ResetKeepsCharacterOk(c: Character)
    requires CharacterOk(c)
    ensures CharacterOk(ResetCharacterTurn(c))
    ensures ResetCharacterTurn(c).attacksRemaining == AttacksPerTurn(c.kind)
    ensures ResetCharacterTurn(c).movement >= c.maxMovement
  {
  }

  /** isCharacterAlive: health above zero. */
  predicate IsCharacterAlive(c: Character)
  {
    c.health > 0
  }

  /** Under the character invariant the cached isAlive flag and isCharacterAlive agree. */
  lemma AliveFlagAgrees(c: Character)
    requires CharacterOk(c)
    ensures IsCharacterAlive(c) == c.isAlive
  {
  }

  /**
   * canMoveTo: within the remaining movement, on the board, onto an empty cell.
   * The distance is tested first, then the bounds, and only then the cell.
   */
  predicate CanMoveTo<T>(c: Character, target: Position, board: Grid<T>)
    requires IsGrid(board)
  {
    if Distance(c.position, target) > c.movement then false
    else if !IsValidPosition(target) then false
    else At(board, target) == None
  }

  lemma CanMoveToMeans<T>(c: Character, target: Position, board: Grid<T>)
    requires IsGrid(board)
    ensures CanMoveTo(c, target, board) <==>
              Distance(c.position, target) <= c.movement && IsValidPosition(target) && At(board, target) == None
  {
  }
}
