/**
 * endTurn of lib/game/gameLogic.ts: the one-shot special-tile effect on the
 * character that has just acted, the pruning of dead ids from the turn
 * order, the round rollover (a new initiative order, movement and attacks
 * restored, new tiles spawned) and the regeneration of the next character.
 *
 * Randomness is an input: the star tile's shuffled draw is `picks`, the
 * same-team initiative tie-break is `tie`, and the spawn coordinates are
 * chosen nondeterministically attempt by attempt.
 */
module EndTurn {
  import opened Wrappers
  import opened Geometry
  import opened Constants
  import opened Types
  import opened Characters
  import opened Utils
  import opened Agreement
  import opened GameLogic

  // ---------------------------------------------------------------------
  // Tile effects

  /**
   * One base bonus of SPECIAL_TILE_EFFECTS. Only the bonus fields change; a
   * heal adds to the maximum first and then heals without passing the new
   * maximum, and initiative never drops below 1. The star and normal kinds
   * have no effect of their own.
   */
  function ApplyBonus(c: Character, k: TileKind): (r: Character)
    ensures r == c.(maxHealth := r.maxHealth, health := r.health, damageBoost := r.damageBoost,
                    maxMovement := r.maxMovement, movement := r.movement, initiative := r.initiative,
                    armor := r.armor, shield := r.shield, regeneration := r.regeneration)
    ensures k == Heal ==> r.maxHealth == c.maxHealth + HEAL_MAX_HP && r.health <= r.maxHealth
    ensures k == Heal && c.health <= c.maxHealth ==> r.health == c.health + HEAL_AMOUNT
    ensures k == InitiativeBoost ==> 1 <= r.initiative <= Max(1, c.initiative)
    ensures !IsBaseKind(k) ==> r == c
  {
    match k
    case Heal => c.(maxHealth := c.maxHealth + HEAL_MAX_HP, health := Min(c.maxHealth + HEAL_MAX_HP, c.health + HEAL_AMOUNT))
    case DamageBoost => c.(damageBoost := c.damageBoost + DAMAGE_BOOST)
    case MovementBoost => c.(maxMovement := c.maxMovement + MOVEMENT_BOOST, movement := c.movement + MOVEMENT_BOOST)
    case InitiativeBoost => c.(initiative := Max(1, c.initiative - INITIATIVE_BOOST))
    case Armor => c.(armor := c.armor + ARMOR)
    case Shield => c.(shield := c.shield + SHIELD)
    case Regeneration => c.(regeneration := c.regeneration + REGENERATION)
    case Star => c
    case Normal => c
  }

  /** The star tile: the drawn bonuses applied one after the other; only bonus fields change. */
  function ApplyStar(c: Character, picks: seq<TileKind>): (r: Character)
    ensures r == c.(maxHealth := r.maxHealth, health := r.health, damageBoost := r.damageBoost,
                    maxMovement := r.maxMovement, movement := r.movement, initiative := r.initiative,
                    armor := r.armor, shield := r.shield, regeneration := r.regeneration)
    decreases |picks|
  {
    if picks == [] then c else ApplyStar(ApplyBonus(c, picks[0]), picks[1..])
  }

  predicate DistinctKinds(picks: seq<TileKind>)
  {
    forall i, j :: 0 <= i < j < |picks| ==> picks[i] != picks[j]
  }

  /** What the shuffle of the seven base kinds can hand the star tile: its first three, all different. */
  predicate StarDraw(picks: seq<TileKind>)
  {
    |picks| == 3 && (forall k :: k in picks ==> IsBaseKind(k)) && DistinctKinds(picks)
  }

  /** Every bonus of `ks` granted once, with no order among them: the reference the star tile is held to. */
  function WithBonuses(c: Character, ks: set<TileKind>): Character
  {
    c.(maxHealth := if Heal in ks then c.maxHealth + HEAL_MAX_HP else c.maxHealth,
       health := if Heal in ks then Min(c.maxHealth + HEAL_MAX_HP, c.health + HEAL_AMOUNT) else c.health,
       damageBoost := c.damageBoost + (if DamageBoost in ks then DAMAGE_BOOST else 0),
       maxMovement := c.maxMovement + (if MovementBoost in ks then MOVEMENT_BOOST else 0),
       movement := c.movement + (if MovementBoost in ks then MOVEMENT_BOOST else 0),
       initiative := if InitiativeBoost in ks then Max(1, c.initiative - INITIATIVE_BOOST) else c.initiative,
       armor := c.armor + (if Armor in ks then ARMOR else 0),
       shield := c.shield + (if Shield in ks then SHIELD else 0),
       regeneration := c.regeneration + (if Regeneration in ks then REGENERATION else 0))
  }

  lemma BonusThenBonuses(c: Character, k: TileKind, ks: set<TileKind>)
    requires IsBaseKind(k) && k !in ks
    ensures WithBonuses(ApplyBonus(c, k), ks) == WithBonuses(c, ks + {k})
  {
    match k
    case Heal =>
    case DamageBoost =>
    case MovementBoost =>
    case InitiativeBoost =>
    case Armor =>
    case Shield =>
    case Regeneration =>
  }

  /** A star tile with different base kinds grants each drawn bonus exactly once. */
  lemma {:induction false} StarTally(c: Character, picks: seq<TileKind>)
    requires (forall k :: k in picks ==> IsBaseKind(k)) && DistinctKinds(picks)
    ensures ApplyStar(c, picks) == WithBonuses(c, set k | k in picks)
    decreases |picks|
  {
    if picks == [] {
      assert (set k | k in picks) == {};
    } else {
      var rest := picks[1..];
      assert DistinctKinds(rest) by {
        forall i, j | 0 <= i < j < |rest| ensures rest[i] != rest[j] {
          assert rest[i] == picks[i + 1] && rest[j] == picks[j + 1];
        }
      }
      forall k | k in rest ensures IsBaseKind(k) && k != picks[0] {
        var j :| 0 <= j < |rest| && rest[j] == k;
        assert picks[j + 1] == k;
      }
      assert picks[0] in picks;
      StarTally(ApplyBonus(c, picks[0]), rest);
      BonusThenBonuses(c, picks[0], set k | k in rest);
      assert (set k | k in picks) == (set k | k in rest) + {picks[0]} by {
        assert picks == [picks[0]] + rest;
      }
    }
  }

  /** The shuffle's order does not matter: two draws of the same kinds give the same character. */
  lemma StarOrderFree(c: Character, p: seq<TileKind>, q: seq<TileKind>)
    requires StarDraw(p) && StarDraw(q) && multiset(p) == multiset(q)
    ensures ApplyStar(c, p) == ApplyStar(c, q)
  {
    StarTally(c, p);
    StarTally(c, q);
    assert (set k | k in p) == (set k | k in q) by {
      forall k ensures k in p <==> k in q {
        assert k in p <==> k in multiset(p);
        assert k in q <==> k in multiset(q);
      }
    }
  }

  /** The effect of a tile of the given kind on the character standing on it. */
  function TileEffect(c: Character, kind: TileKind, picks: seq<TileKind>): (r: Character)
    ensures r.id == c.id && r.kind == c.kind && r.team == c.team && r.position == c.position && r.isAlive == c.isAlive
    ensures r.movementBoost == c.movementBoost && r.attacksRemaining == c.attacksRemaining
    ensures kind == Normal ==> r == c
    ensures kind != Star ==> r == ApplyBonus(c, kind)
  {
    if kind == Star then ApplyStar(c, picks) else ApplyBonus(c, kind)
  }

  lemma BonusKeepsCharacterOk(c: Character, k: TileKind)
    requires CharacterOk(c) && c.isAlive
    ensures CharacterOk(ApplyBonus(c, k)) && ApplyBonus(c, k).health >= c.health
  {
  }

  lemma {:induction false} StarKeepsCharacterOk(c: Character, picks: seq<TileKind>)
    requires CharacterOk(c) && c.isAlive
    ensures CharacterOk(ApplyStar(c, picks))
    decreases |picks|
  {
    if picks != [] {
      BonusKeepsCharacterOk(c, picks[0]);
      StarKeepsCharacterOk(ApplyBonus(c, picks[0]), picks[1..]);
    }
  }

  /** A tile never harms a living character: it stays well formed. */
  lemma TileKeepsCharacterOk(c: Character, kind: TileKind, picks: seq<TileKind>)
    requires CharacterOk(c) && c.isAlive
    ensures CharacterOk(TileEffect(c, kind, picks))
  {
    if kind == Star {
      StarKeepsCharacterOk(c, picks);
    } else {
      BonusKeepsCharacterOk(c, kind);
    }
  }

  // ---------------------------------------------------------------------
  // The tile under the character that has just acted

  /** The first unused tile on cell `p`, or -1 when there is none. */
  function UnusedTileAt(tiles: seq<SpecialTile>, p: Position): (i: int)
    ensures -1 <= i < |tiles|
    ensures i >= 0 ==> tiles[i].position == p && !tiles[i].used
    ensures forall j :: 0 <= j < |tiles| && (i < 0 || j < i) ==> tiles[j].position != p || tiles[j].used
  {
    if |tiles| == 0 then -1
    else if tiles[0].position == p && !tiles[0].used then 0
    else
      var i := UnusedTileAt(tiles[1..], p);
      if i < 0 then -1 else i + 1
  }

  /** The character that has just acted; an empty id means that nobody did. */
  function UsedCharacter(s: GameState, usedId: string): Option<Character>
  {
    if usedId == "" then None else FindById(All(s), usedId)
  }

  /** The index of the tile the acting character collects, or -1. */
  function UsedTile(s: GameState, usedId: string): (i: int)
    ensures -1 <= i < |s.specialTiles|
    ensures i >= 0 ==> UsedCharacter(s, usedId).Some?
    ensures i >= 0 ==> s.specialTiles[i].position == UsedCharacter(s, usedId).value.position && !s.specialTiles[i].used
  {
    match UsedCharacter(s, usedId)
    case None => -1
    case Some(c) => UnusedTileAt(s.specialTiles, c.position)
  }

  /** Nobody acted, or the one who did is still alive. */
  predicate UsedOk(s: GameState, usedId: string)
  {
    UsedCharacter(s, usedId).None? || UsedCharacter(s, usedId).value.isAlive
  }

  /** Replacing the members with id `id` inside the list of team `team` only; every other member stays in place. */
  function ReplaceInItsTeam(s: GameState, team: Team, id: string, u: Character): (r: GameState)
    ensures r == s.(playerTeam := r.playerTeam, enemyTeam := r.enemyTeam)
    ensures |All(r)| == |All(s)|
    ensures forall i :: 0 <= i < |All(s)| ==> All(r)[i] == All(s)[i] || (All(s)[i].id == id && All(r)[i] == u)
  {
    if team == Player then s.(playerTeam := ReplaceById(s.playerTeam, id, u))
    else s.(enemyTeam := ReplaceById(s.enemyTeam, id, u))
  }

  /**
   * The tile step of endTurn: when the acting character stands on an unused
   * tile, the tile's effect is applied to it, the tile is marked used, the
   * character is replaced in its team and its id is written on its cell;
   * otherwise nothing changes.
   */
  function TileApplied(s: GameState, usedId: string, picks: seq<TileKind>): (a: GameState)
    requires IsGrid(s.board) && forall c :: c in All(s) ==> IsValidPosition(c.position)
    ensures IsGrid(a.board) && forall c :: c in All(a) ==> IsValidPosition(c.position)
    ensures a == s.(board := a.board, playerTeam := a.playerTeam, enemyTeam := a.enemyTeam, specialTiles := a.specialTiles)
    ensures UsedTile(s, usedId) < 0 ==> a == s
    ensures var ti := UsedTile(s, usedId);
            ti >= 0 ==>
              && |a.specialTiles| == |s.specialTiles|
              && a.specialTiles[ti] == s.specialTiles[ti].(used := true)
              && (forall j :: 0 <= j < |s.specialTiles| && j != ti ==> a.specialTiles[j] == s.specialTiles[j])
              && |All(a)| == |All(s)|
              && (forall i :: 0 <= i < |All(s)| && All(s)[i].id != usedId ==> All(a)[i] == All(s)[i])
  {
    var ti := UsedTile(s, usedId);
    if ti < 0 then s
    else
      var c := UsedCharacter(s, usedId).value;
      var u := TileEffect(c, s.specialTiles[ti].kind, picks);
      var r := ReplaceInItsTeam(s, c.team, usedId, u);
      assert forall x :: x in All(r) ==> x in All(s) || x == u by {
        forall x | x in All(r) ensures x in All(s) || x == u {
          var i :| 0 <= i < |All(r)| && All(r)[i] == x;
        }
      }
      r.(board := Put(s.board, c.position, Some(u.id)),
         specialTiles := s.specialTiles[ti := s.specialTiles[ti].(used := true)])
  }

  /** Replacing a member by one with the same id, cell, liveness and team that is well formed keeps the invariant. */
  lemma ReplaceKeepsStateOk(s: GameState, id: string, u: Character)
    requires StateOk(s) && FindById(All(s), id).Some?
    requires var c := FindById(All(s), id).value;
             u.id == id && u.position == c.position && u.isAlive == c.isAlive && u.team == c.team && CharacterOk(u)
    ensures var c := FindById(All(s), id).value;
            var r := ReplaceInItsTeam(s, c.team, id, u);
            StateOk(r) && All(r) == ReplaceById(All(s), id, u)
  {
    var all := All(s);
    var c := FindById(all, id).value;
    var r := ReplaceInItsTeam(s, c.team, id, u);
    MoveRebuildsAll(s, id, u);
    forall x | x in all && x.id == id
      ensures u.id == id && u.position == x.position && u.isAlive == x.isAlive
    {
      var i :| 0 <= i < |all| && all[i] == x;
      FindMember(all, i);
    }
    AgreementReplace(s.board, all, id, u);
    ReplacedMembers(s.playerTeam, id, u);
    ReplacedMembers(s.enemyTeam, id, u);
    ReplacedMembers(all, id, u);
    assert c.team == Player ==> c !in s.enemyTeam;
    assert c.team == Enemy ==> c !in s.playerTeam;
  }

  /** With the first member found by id replaced by `u` of the same id, looking the id up finds `u`. */
  lemma FindReplaced(chars: seq<Character>, id: string, u: Character)
    requires u.id == id && FindById(chars, id).Some?
    ensures FindById(ReplaceById(chars, id, u), id) == Some(u)
  {
    IndexOfIdSameIds(chars, ReplaceById(chars, id, u), id);
  }

  /**
   * On a state that keeps the invariant, with the acting character alive or
   * absent, the tile step keeps the invariant, leaves the board as it was,
   * and gives the acting character exactly the tile's effect.
   */
  lemma TileAppliedKeepsStateOk(s: GameState, usedId: string, picks: seq<TileKind>)
    requires StateOk(s) && UsedOk(s, usedId)
    ensures var a := TileApplied(s, usedId, picks);
            && StateOk(a) && a.board == s.board
            && (UsedTile(s, usedId) >= 0 ==>
                  var c := UsedCharacter(s, usedId).value;
                  FindById(All(a), usedId) == Some(TileEffect(c, s.specialTiles[UsedTile(s, usedId)].kind, picks)))
  {
    var ti := UsedTile(s, usedId);
    if ti >= 0 {
      var c := UsedCharacter(s, usedId).value;
      var u := TileEffect(c, s.specialTiles[ti].kind, picks);
      assert c in All(s);
      TileKeepsCharacterOk(c, s.specialTiles[ti].kind, picks);
      ReplaceKeepsStateOk(s, usedId, u);
      PutSame(s.board, c.position);
      FindReplaced(All(s), usedId, u);
    }
  }

  // ---------------------------------------------------------------------
  // Order advance and rollover

  lemma AliveIds(chars: seq<Character>)
    ensures forall id :: id in Ids(AliveOnly(chars)) <==> exists i :: 0 <= i < |chars| && chars[i].isAlive && chars[i].id == id
  {
    forall id ensures id in Ids(AliveOnly(chars)) <==> exists i :: 0 <= i < |chars| && chars[i].isAlive && chars[i].id == id {
      if id in Ids(AliveOnly(chars)) {
        var k :| 0 <= k < |AliveOnly(chars)| && Ids(AliveOnly(chars))[k] == id;
        AliveMemberIsOfLiving(chars, k);
      }
      if exists i :: 0 <= i < |chars| && chars[i].isAlive && chars[i].id == id {
        var i :| 0 <= i < |chars| && chars[i].isAlive && chars[i].id == id;
        LivingIdIsListed(chars, i);
      }
    }
  }

  lemma AliveMemberIsOfLiving(chars: seq<Character>, k: int)
    requires 0 <= k < |AliveOnly(chars)|
    ensures exists i :: 0 <= i < |chars| && chars[i].isAlive && chars[i].id == AliveOnly(chars)[k].id
  {
    var c := AliveOnly(chars)[k];
    assert c in AliveOnly(chars);
    var i :| 0 <= i < |chars| && chars[i] == c;
  }

  lemma LivingIdIsListed(chars: seq<Character>, i: int)
    requires 0 <= i < |chars| && chars[i].isAlive
    ensures chars[i].id in Ids(AliveOnly(chars))
  {
    var alive := AliveOnly(chars);
    assert chars[i] in alive;
    var k :| 0 <= k < |alive| && alive[k] == chars[i];
    assert Ids(alive)[k] == chars[i].id;
  }

  /** The turn order without the ids of characters no longer alive: a sub-list of the order holding exactly its living ids. */
  function PrunedOrder(order: seq<string>, chars: seq<Character>): (r: seq<string>)
    ensures |r| <= |order| && multiset(r) <= multiset(order)
    ensures forall id :: id in r <==> id in order && exists i :: 0 <= i < |chars| && chars[i].isAlive && chars[i].id == id
  {
    AliveIds(chars);
    Filter(order, (id: string) => id in Ids(AliveOnly(chars)))
  }

  /** Pruning an order with one more id keeps that id at the end exactly when a living character has it. */
  lemma PrunedOrderSnoc(order: seq<string>, id: string, chars: seq<Character>)
    ensures PrunedOrder(order + [id], chars) ==
      PrunedOrder(order, chars) + (if exists i :: 0 <= i < |chars| && chars[i].isAlive && chars[i].id == id then [id] else [])
  {
    AliveIds(chars);
    FilterSnoc(order, id, (x: string) => x in Ids(AliveOnly(chars)));
  }

  /**
   * The rollover reset of one character: a living one gets its full movement
   * back and its class's ATTACKS_PER_TURN, a dead one keeps its movement and
   * has no attacks; nothing else changes.
   */
  function RoundReset(c: Character): (r: Character)
    ensures c.isAlive ==> r.movement == c.maxMovement && r.attacksRemaining == AttacksPerTurn(c.kind)
    ensures !c.isAlive ==> r.movement == c.movement && r.attacksRemaining == 0
    ensures r == c.(movement := r.movement, attacksRemaining := r.attacksRemaining)
  {
    c.(movement := if c.isAlive then c.maxMovement else c.movement,
       attacksRemaining := if c.isAlive then (if c.kind == Warrior then 2 else 1) else 0)
  }

  /** For a living character without a pending movement boost, the rollover reset is resetCharacterTurn. */
  lemma RoundResetIsTurnReset(c: Character)
    requires c.isAlive && c.movementBoost == 0
    ensures RoundReset(c) == ResetCharacterTurn(c)
  {
    AttacksPerTurnAgrees(c.kind);
  }

  function RoundResetTeam(team: seq<Character>): (r: seq<Character>)
    ensures |r| == |team| && forall i :: 0 <= i < |team| ==> r[i] == RoundReset(team[i])
  {
    seq(|team|, i requires 0 <= i < |team| => RoundReset(team[i]))
  }

  /** Each living character's id written, in list order, onto its cell. */
  function WriteAlive(board: Grid<string>, chars: seq<Character>): (r: Grid<string>)
    requires IsGrid(board) && forall c :: c in chars ==> IsValidPosition(c.position)
    ensures IsGrid(r)
    decreases |chars|
  {
    if chars == [] then board
    else
      var next := if chars[0].isAlive then Put(board, chars[0].position, Some(chars[0].id)) else board;
      assert forall c :: c in chars[1..] ==> c in chars;
      WriteAlive(next, chars[1..])
  }

  /** Writing living characters onto cells that already hold their ids changes nothing. */
  lemma {:induction false} WriteAliveSame(board: Grid<string>, chars: seq<Character>)
    requires IsGrid(board) && forall c :: c in chars ==> IsValidPosition(c.position)
    requires forall c :: c in chars && c.isAlive ==> At(board, c.position) == Some(c.id)
    ensures WriteAlive(board, chars) == board
  {
    if chars != [] {
      assert chars[0] in chars;
      if chars[0].isAlive {
        PutSame(board, chars[0].position);
      }
      assert forall c :: c in chars[1..] ==> c in chars;
      WriteAliveSame(board, chars[1..]);
    }
  }

  /** The rollover's board pass: every living character's id written onto its cell, in list order. */
  method WriteAliveOnBoard(board: Grid<string>, chars: seq<Character>) returns (board': Grid<string>)
    requires IsGrid(board) && forall c :: c in chars ==> IsValidPosition(c.position)
    ensures board' == WriteAlive(board, chars)
  {
    board' := board;
    for k := 0 to |chars|
      invariant IsGrid(board')
      invariant WriteAlive(board', chars[k..]) == WriteAlive(board, chars)
    {
      assert chars[k] in chars;
      assert chars[k..] == [chars[k]] + chars[k + 1..];
      if chars[k].isAlive {
        board' := Put(board', chars[k].position, Some(chars[k].id));
      }
    }
    assert chars[|chars|..] == [];
  }

  /** The team and board part of the rollover. */
  function ResetRound(a: GameState): (b: GameState)
    requires IsGrid(a.board) && forall c :: c in All(a) ==> IsValidPosition(c.position)
    ensures IsGrid(b.board) && forall c :: c in All(b) ==> IsValidPosition(c.position)
    ensures b == a.(board := b.board, playerTeam := RoundResetTeam(a.playerTeam), enemyTeam := RoundResetTeam(a.enemyTeam))
  {
    var p, e := RoundResetTeam(a.playerTeam), RoundResetTeam(a.enemyTeam);
    assert forall c :: c in p + e ==> IsValidPosition(c.position) by {
      forall c | c in p + e ensures IsValidPosition(c.position) {
        var i :| 0 <= i < |p + e| && (p + e)[i] == c;
        assert (p + e)[i] == RoundReset(All(a)[i]) && All(a)[i] in All(a);
      }
    }
    a.(playerTeam := p, enemyTeam := e, board := WriteAlive(a.board, p + e))
  }

  /** The rollover keeps the invariant and leaves the board as it was. */
  lemma ResetRoundKeepsStateOk(a: GameState)
    requires StateOk(a)
    ensures StateOk(ResetRound(a)) && ResetRound(a).board == a.board
  {
    var all, all' := All(a), RoundResetTeam(a.playerTeam) + RoundResetTeam(a.enemyTeam);
    ResetMembers(all, all', a.playerTeam, a.enemyTeam);
    AgreementSameFootprint(a.board, all, all');
    forall c | c in all' && c.isAlive ensures At(a.board, c.position) == Some(c.id) {
      var i :| 0 <= i < |all'| && all'[i] == c;
      assert all[i] in all;
    }
    WriteAliveSame(a.board, all');
    ResetKeepsTags(a.playerTeam, Player);
    ResetKeepsTags(a.enemyTeam, Enemy);
  }

  /** The reset list is the old one member by member, with the same footprint, every member well formed. */
  lemma ResetMembers(all: seq<Character>, all': seq<Character>, p: seq<Character>, e: seq<Character>)
    requires all == p + e && all' == RoundResetTeam(p) + RoundResetTeam(e)
    requires forall c :: c in all ==> CharacterOk(c)
    ensures |all'| == |all|
    ensures forall i :: 0 <= i < |all| ==> all'[i] == RoundReset(all[i])
    ensures SameFootprint(all, all') && forall i :: 0 <= i < |all'| ==> all'[i].isAlive == all[i].isAlive
    ensures forall c :: c in all' ==> CharacterOk(c)
  {
    forall i | 0 <= i < |all|
      ensures all'[i] == RoundReset(all[i])
      ensures CharacterOk(all'[i])
    {
      if i < |p| {
        assert all'[i] == RoundResetTeam(p)[i] && all[i] == p[i];
      } else {
        assert all'[i] == RoundResetTeam(e)[i - |p|] && all[i] == e[i - |p|];
      }
      assert all[i] in all;
    }
  }

  /** Resetting a team keeps every member's side. */
  lemma ResetKeepsTags(team: seq<Character>, side: Team)
    requires forall c :: c in team ==> c.team == side
    ensures forall c :: c in RoundResetTeam(team) ==> c.team == side
  {
    forall c | c in RoundResetTeam(team) ensures c.team == side {
      var i :| 0 <= i < |team| && RoundResetTeam(team)[i] == c;
      assert team[i] in team;
    }
  }

  // ---------------------------------------------------------------------
  // Spawning new tiles at rollover

  /** The central 4x4 block where a star tile may appear. */
  predicate InCentre(p: Position)
  {
    6 <= p.x <= 9 && 6 <= p.y <= 9
  }

  /** The order in which the rollover spawns kinds: the seven base kinds, then the star. */
  function KindRank(k: TileKind): nat
  {
    match k
    case Heal => 0
    case DamageBoost => 1
    case MovementBoost => 2
    case InitiativeBoost => 3
    case Armor => 4
    case Shield => 5
    case Regeneration => 6
    case Star => 7
    case Normal => 8
  }

  lemma BaseKindRanks()
    ensures forall k :: 0 <= k < |BASE_KINDS| ==> KindRank(BASE_KINDS[k]) == k && IsBaseKind(BASE_KINDS[k])
  {
    assert BASE_KINDS == [Heal, DamageBoost, MovementBoost, InitiativeBoost, Armor, Shield, Regeneration];
  }

  /** Cells that a spawned tile must avoid: living characters and unused tiles. */
  function Occupied(chars: seq<Character>, tiles: seq<SpecialTile>): (o: set<Position>)
    ensures forall c :: c in chars && c.isAlive ==> c.position in o
    ensures forall t :: t in tiles && !t.used ==> t.position in o
  {
    (set c | c in chars && c.isAlive :: c.position) + (set t | t in tiles && !t.used :: t.position)
  }

  /** One spawned tile: unused, on the board, on a free cell; a star only every third round and only in the centre. */
  predicate SpawnedTileOk(t: SpecialTile, occupied: set<Position>, turnCount: int)
  {
    && !t.used && IsValidPosition(t.position) && t.position !in occupied
    && (IsBaseKind(t.kind) || (t.kind == Star && turnCount % 3 == 0 && InCentre(t.position)))
  }

  /** The spawned tiles: each fine on its own, on different cells, at most one per kind, in spawning order. */
  predicate SpawnOk(spawned: seq<SpecialTile>, occupied: set<Position>, turnCount: int)
  {
    && (forall i :: 0 <= i < |spawned| ==> SpawnedTileOk(spawned[i], occupied, turnCount))
    && (forall i, j :: 0 <= i < j < |spawned| ==>
          spawned[i].position != spawned[j].position && KindRank(spawned[i].kind) < KindRank(spawned[j].kind))
  }

  /**
   * The spawn loops of the rollover: for each base kind up to 100 random
   * cells are tried and the first free one gets a tile of that kind; every
   * third round up to 50 random cells of the centre are tried for a star.
   * Any attempt may land on a taken cell, so a kind may be skipped.
   */
  method SpawnTiles(occupied: set<Position>, turnCount: int) returns (spawned: seq<SpecialTile>)
    ensures SpawnOk(spawned, occupied, turnCount)
  {
    BaseKindRanks();
    spawned := [];
    var taken := occupied;
    for k := 0 to |BASE_KINDS|
      invariant SpawnOk(spawned, occupied, turnCount)
      invariant occupied <= taken && forall t :: t in spawned ==> t.position in taken
      invariant forall t :: t in spawned ==> KindRank(t.kind) < k
    {
      var attempts := 0;
      while attempts < 100
        invariant SpawnOk(spawned, occupied, turnCount)
        invariant occupied <= taken && forall t :: t in spawned ==> t.position in taken
        invariant forall t :: t in spawned ==> KindRank(t.kind) < k
      {
        var x: int :| 0 <= x < BOARD_SIZE;
        var y: int :| 0 <= y < BOARD_SIZE;
        var p := Position(x, y);
        if p !in taken {
          spawned := spawned + [SpecialTile(p, BASE_KINDS[k], false)];
          taken := taken + {p};
          break;
        }
        attempts := attempts + 1;
      }
    }
    if turnCount % 3 == 0 {
      var attempts := 0;
      while attempts < 50
        invariant SpawnOk(spawned, occupied, turnCount)
        invariant occupied <= taken && forall t :: t in spawned ==> t.position in taken
        invariant forall t :: t in spawned ==> KindRank(t.kind) < 7
      {
        var x: int :| 6 <= x < 10;
        var y: int :| 6 <= y < 10;
        var p := Position(x, y);
        if p !in taken {
          spawned := spawned + [SpecialTile(p, Star, false)];
          taken := taken + {p};
          break;
        }
        attempts := attempts + 1;
      }
    }
  }

  // ---------------------------------------------------------------------
  // Regeneration of the next character

  /** Regeneration heals by the character's rate without passing its maximum; nothing else changes. */
  function Regenerated(c: Character): (r: Character)
    ensures r == c.(health := r.health)
    ensures r.health == c.maxHealth || r.health == c.health + c.regeneration
    ensures c.health <= c.maxHealth && c.regeneration >= 0 ==> c.health <= r.health <= c.maxHealth
  {
    c.(health := Min(c.maxHealth, c.health + c.regeneration))
  }

  /** The id at the new index, if the index is inside the order. */
  function NextId(order: seq<string>, index: int): (r: Option<string>)
    ensures r.Some? <==> 0 <= index < |order|
    ensures r.Some? ==> r.value in order
  {
    if 0 <= index < |order| then Some(order[index]) else None
  }

  function NextCharacter(b: GameState, nextId: Option<string>): Option<Character>
  {
    match nextId
    case None => None
    case Some(id) => FindById(All(b), id)
  }

  /** Whose turn it is next: the next character's side, or the player when there is no next character. */
  function NextTeam(b: GameState, nextId: Option<string>): Team
  {
    match NextCharacter(b, nextId)
    case Some(c) => c.team
    case None => Player
  }

  /**
   * The regeneration step: a living next character with a positive rate is
   * healed, replaced in its team and written on its cell; otherwise nothing
   * changes.
   */
  function RegenNext(b: GameState, nextId: Option<string>): (g: GameState)
    requires IsGrid(b.board) && forall c :: c in All(b) ==> IsValidPosition(c.position)
    ensures IsGrid(g.board)
    ensures g == b.(board := g.board, playerTeam := g.playerTeam, enemyTeam := g.enemyTeam)
    ensures |All(g)| == |All(b)|
    ensures UniqueIds(All(b)) ==> forall i :: 0 <= i < |All(b)| ==>
              All(g)[i] == All(b)[i] || (All(g)[i] == Regenerated(All(b)[i]) && All(b)[i].isAlive && All(b)[i].regeneration > 0)
  {
    match NextCharacter(b, nextId)
    case None => b
    case Some(c) =>
      if c.isAlive && c.regeneration > 0 then
        var u := Regenerated(c);
        var r := ReplaceInItsTeam(b, c.team, c.id, u);
        assert UniqueIds(All(b)) ==> forall i :: 0 <= i < |All(b)| && All(r)[i] != All(b)[i] ==> All(b)[i] == c by {
          if UniqueIds(All(b)) {
            forall i | 0 <= i < |All(b)| && All(r)[i] != All(b)[i] ensures All(b)[i] == c {
              FindMember(All(b), i);
            }
          }
        }
        r.(board := Put(b.board, c.position, Some(c.id)))
      else b
  }

  /** Regeneration keeps the invariant and leaves the board as it was. */
  lemma RegenKeepsStateOk(b: GameState, nextId: Option<string>)
    requires StateOk(b)
    ensures StateOk(RegenNext(b, nextId)) && RegenNext(b, nextId).board == b.board
  {
    var n := NextCharacter(b, nextId);
    if n.Some? && n.value.isAlive && n.value.regeneration > 0 {
      var c := n.value;
      assert c in All(b);
      ReplaceKeepsStateOk(b, c.id, Regenerated(c));
      PutSame(b.board, c.position);
    }
  }

  // ---------------------------------------------------------------------
  // endTurn

  /** The board, teams and side to play of the finished turn: `b` after regeneration of the next character. */
  predicate Finished(r: GameState, b: GameState, nextId: Option<string>)
    requires IsGrid(b.board) && forall c :: c in All(b) ==> IsValidPosition(c.position)
  {
    var g := RegenNext(b, nextId);
    r.board == g.board && r.playerTeam == g.playerTeam && r.enemyTeam == g.enemyTeam && r.currentTurn == NextTeam(b, nextId)
  }

  /**
   * endTurn. After the tile step, the order loses the ids of dead characters
   * and the index moves on by one. When that runs past the pruned order the
   * round rolls over: the index returns to 0, the round counter rises by one,
   * the order is rebuilt from initiative, movement and attacks are restored,
   * and new tiles are spawned on free cells. Finally the next character
   * regenerates and its side gets the turn. The index always lies inside
   * the new order unless that order is empty, and on a state that keeps the
   * invariant, with the acting character alive or absent, the invariant is
   * kept and the board does not change.
   */
  method EndTurn(s: GameState, usedId: string, picks: seq<TileKind>, tie: string -> int) returns (r: GameState)
    requires IsGrid(s.board) && forall c :: c in All(s) ==> IsValidPosition(c.position)
    requires StarDraw(picks)
    ensures var a := TileApplied(s, usedId, picks);
            var pruned := PrunedOrder(s.turnOrder, All(a));
            !(s.currentTurnOrderIndex + 1 >= |pruned|) ==>
              && r.turnOrder == pruned && r.currentTurnOrderIndex == s.currentTurnOrderIndex + 1
              && r.turnCount == s.turnCount && r.specialTiles == a.specialTiles
              && Finished(r, a, NextId(r.turnOrder, r.currentTurnOrderIndex))
    ensures var a := TileApplied(s, usedId, picks);
            var pruned := PrunedOrder(s.turnOrder, All(a));
            var b := ResetRound(a);
            s.currentTurnOrderIndex + 1 >= |pruned| ==>
              && r.currentTurnOrderIndex == 0 && r.turnCount == s.turnCount + 1
              && IsTurnOrderOf(r.turnOrder, a.playerTeam, a.enemyTeam, tie)
              && |r.specialTiles| >= |a.specialTiles| && r.specialTiles[..|a.specialTiles|] == a.specialTiles
              && SpawnOk(r.specialTiles[|a.specialTiles|..], Occupied(All(b), a.specialTiles), r.turnCount)
              && Finished(r, b, NextId(r.turnOrder, 0))
    ensures r == s.(board := r.board, playerTeam := r.playerTeam, enemyTeam := r.enemyTeam, specialTiles := r.specialTiles,
                    currentTurn := r.currentTurn, currentCharacterIndex := r.currentTurnOrderIndex, turnCount := r.turnCount,
                    turnOrder := r.turnOrder, currentTurnOrderIndex := r.currentTurnOrderIndex)
    ensures s.currentTurnOrderIndex >= -1 ==>
              0 <= r.currentTurnOrderIndex && (r.turnOrder == [] || r.currentTurnOrderIndex < |r.turnOrder|)
    ensures StateOk(s) && UsedOk(s, usedId) ==> StateOk(r) && r.board == s.board
  {
    var a := TileApplied(s, usedId, picks);
    var playerTeam, enemyTeam, specialTiles, board := a.playerTeam, a.enemyTeam, a.specialTiles, a.board;
    var nextIndex := s.currentTurnOrderIndex + 1;
    var turnCount := s.turnCount;
    var turnOrder := PrunedOrder(s.turnOrder, playerTeam + enemyTeam);
    var rolls := nextIndex >= |turnOrder|;
    if rolls {
      nextIndex := 0;
      turnCount := turnCount + 1;
      turnOrder := GenerateTurnOrder(playerTeam, enemyTeam, tie);
      playerTeam := RoundResetTeam(playerTeam);
      enemyTeam := RoundResetTeam(enemyTeam);
      var all := playerTeam + enemyTeam;
      assert all == All(ResetRound(a));
      board := WriteAliveOnBoard(board, all);
      var spawned := SpawnTiles(Occupied(all, specialTiles), turnCount);
      specialTiles := specialTiles + spawned;
      assert specialTiles[|a.specialTiles|..] == spawned;
    }
    var nextId := NextId(turnOrder, nextIndex);
    var b := a.(playerTeam := playerTeam, enemyTeam := enemyTeam, board := board);
    assert rolls ==> b == ResetRound(a);
    var g := RegenNext(b, nextId);
    r := s.(board := g.board, playerTeam := g.playerTeam, enemyTeam := g.enemyTeam, specialTiles := specialTiles,
            currentTurn := NextTeam(b, nextId), currentCharacterIndex := nextIndex, turnCount := turnCount,
            turnOrder := turnOrder, currentTurnOrderIndex := nextIndex);
    if StateOk(s) && UsedOk(s, usedId) {
      TileAppliedKeepsStateOk(s, usedId, picks);
      if rolls {
        ResetRoundKeepsStateOk(a);
      }
      RegenKeepsStateOk(b, nextId);
      assert All(r) == All(g);
    }
  }

  /**
   * After a rollover and the regeneration that follows, every living
   * character has its full movement and its class's attacks, and every dead
   * one has no attacks.
   */
  lemma RolloverRestoresTurn(a: GameState, nextId: Option<string>)
    requires IsGrid(a.board) && forall c :: c in All(a) ==> IsValidPosition(c.position)
    requires UniqueIds(All(a))
    ensures forall c :: c in All(RegenNext(ResetRound(a), nextId)) ==>
              && (c.isAlive ==> c.movement == c.maxMovement && c.attacksRemaining == AttacksPerTurn(c.kind))
              && (!c.isAlive ==> c.attacksRemaining == 0)
  {
    var b := ResetRound(a);
    var g := RegenNext(b, nextId);
    assert |All(b)| == |All(a)|;
    forall i | 0 <= i < |All(a)| ensures All(b)[i] == RoundReset(All(a)[i]) {
    }
    assert UniqueIds(All(b)) by {
      forall i, j | 0 <= i < j < |All(b)| ensures All(b)[i].id != All(b)[j].id {
        assert All(b)[i].id == All(a)[i].id && All(b)[j].id == All(a)[j].id;
      }
    }
    forall c | c in All(g)
      ensures c.isAlive ==> c.movement == c.maxMovement && c.attacksRemaining == AttacksPerTurn(c.kind)
      ensures !c.isAlive ==> c.attacksRemaining == 0
    {
      var i :| 0 <= i < |All(g)| && All(g)[i] == c;
      assert All(b)[i] == RoundReset(All(a)[i]);
    }
  }
}
