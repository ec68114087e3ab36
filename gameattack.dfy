/**
 * lib/game/gameLogic.ts, part two: performAttack on the value state.
 * Target selection depends on the attacker's class; every hit goes through
 * armor, then the shield, then health; the board loses the ids of those who
 * died; the game ends when a side has nobody left alive.
 */
module GameAttack {
  import opened Wrappers
  import opened Geometry
  import opened Constants
  import opened Types
  import opened Utils
  import opened Agreement

  datatype AttackOutcome = AttackOutcome(gameState: GameState, attackResult: Option<AttackResult>)

  /** The first living character other than the attacker that stands on the target cell. */
  function OccupantAt(alive: seq<Character>, targetPosition: Position, attackerId: string): (r: Option<Character>)
    ensures r.Some? ==> r.value in alive && r.value.position == targetPosition && r.value.id != attackerId
    ensures r.None? <==> forall c :: c in alive ==> c.position != targetPosition || c.id == attackerId
  {
    if |alive| == 0 then None
    else if alive[0].position == targetPosition && alive[0].id != attackerId then Some(alive[0])
    else OccupantAt(alive[1..], targetPosition, attackerId)
  }

  /**
   * The targets of an attack: warriors and royals hit the other occupant of a
   * cell at distance at most 1, thieves one at distance at most 4, and mages
   * every living character but themselves within 3 of their own cell.
   */
  function AttackTargets(attacker: Character, alive: seq<Character>, targetPosition: Position): (r: seq<Character>)
    ensures attacker.kind == Mage ==>
              forall c :: c in r <==> c in alive && c.id != attacker.id && Distance(attacker.position, c.position) <= AttackRange(Mage)
    ensures attacker.kind != Mage ==> |r| <= 1
    ensures attacker.kind != Mage ==>
              var reach := if attacker.kind == Thief then AttackRange(Thief) else 1;
              (r == [] <==> Distance(attacker.position, targetPosition) > reach || OccupantAt(alive, targetPosition, attacker.id).None?)
    ensures attacker.kind != Mage && r != [] ==>
              r[0] in alive && r[0].position == targetPosition && r[0].id != attacker.id
    ensures forall c :: c in r ==> c in alive && c.id != attacker.id
  {
    match attacker.kind
    case Mage =>
      Filter(alive, (c: Character) => c.id != attacker.id && Distance(attacker.position, c.position) <= AttackRange(Mage))
    case _ =>
      var reach := if attacker.kind == Thief then AttackRange(Thief) else 1;
      if Distance(attacker.position, targetPosition) > reach then []
      else match OccupantAt(alive, targetPosition, attacker.id)
        case None => []
        case Some(c) => [c]
  }

  /** A mage's targets do not depend on the clicked cell. */
  lemma MageIgnoresTargetPosition(attacker: Character, alive: seq<Character>, p: Position, q: Position)
    requires attacker.kind == Mage
    ensures AttackTargets(attacker, alive, p) == AttackTargets(attacker, alive, q)
  {
  }

  /** The thief's `isMelee` is recomputed from the distance; for other classes it is passed on, and only a thief can use it. */
  function EffectiveMelee(attacker: Character, targetPosition: Position, isMelee: bool): bool
  {
    if attacker.kind == Thief then Distance(attacker.position, targetPosition) <= 1 else isMelee
  }

  /**
   * Damage against shield and health: positive damage first drains a positive
   * shield, the rest comes off health, which never drops below zero.
   */
  function Absorb(shield: int, health: int, damage: int): (r: (int, int))
    ensures damage <= 0 ==> r == (shield, health)
    ensures damage > 0 && shield > 0 && damage <= shield ==> r == (shield - damage, Max(0, health))
    ensures damage > 0 && shield > 0 && damage > shield ==> r == (0, Max(0, health - (damage - shield)))
    ensures damage > 0 && shield <= 0 ==> r == (shield, Max(0, health - damage))
  {
    if damage > 0 then
      if shield > 0 then
        var shieldDamage := if shield <= damage then shield else damage;
        (shield - shieldDamage, Max(0, health - (damage - shieldDamage)))
      else (shield, Max(0, health - damage))
    else (shield, health)
  }

  /** What the shield and health lose together never exceeds the damage, and neither goes negative or grows. */
  lemma AbsorbBounds(shield: int, health: int, damage: int)
    requires shield >= 0 && health >= 0 && damage >= 0
    ensures 0 <= Absorb(shield, health, damage).0 <= shield
    ensures 0 <= Absorb(shield, health, damage).1 <= health
    ensures (shield - Absorb(shield, health, damage).0) + (health - Absorb(shield, health, damage).1) <= damage
    ensures Absorb(shield, health, damage).1 < health ==> Absorb(shield, health, damage).0 == 0
  {
  }

  /**
   * One entry of the attack results: the class damage with the attacker's
   * boost, doubled on a thief's melee crit, reduced by armor to at least 0,
   * then taken by shield and health; the target's liveness follows its health.
   */
  function Hit(attacker: Character, target: Character, isMelee: bool, crit: bool): (h: TargetHit)
    ensures h.isCritical <==> attacker.kind == Thief && isMelee && crit
    ensures h.damage == Max(0, (if h.isCritical then 2 else 1) * CalculateDamage(attacker.kind, target.kind, attacker.damageBoost) - target.armor)
    ensures h.damage >= 0
    ensures (h.character.shield, h.character.health) == Absorb(target.shield, target.health, h.damage)
    ensures h.character.isAlive <==> h.character.health > 0
    ensures h.character == target.(health := h.character.health, shield := h.character.shield, isAlive := h.character.isAlive)
  {
    var isCritical := attacker.kind == Thief && isMelee && crit;
    var damage := CalculateDamage(attacker.kind, target.kind, attacker.damageBoost);
    var damage := if isCritical then damage * 2 else damage;
    var afterArmor := Max(0, damage - target.armor);
    var (shield, health) := Absorb(target.shield, target.health, afterArmor);
    TargetHit(target.(health := health, shield := shield, isAlive := health > 0), afterArmor, isCritical)
  }

  /** A hit keeps the character invariant of a well-formed target. */
  lemma HitKeepsCharacterOk(attacker: Character, target: Character, isMelee: bool, crit: bool)
    requires CharacterOk(target)
    ensures var h := Hit(attacker, target, isMelee, crit);
            CharacterOk(h.character) && h.character.health <= target.health && h.character.shield <= target.shield
  {
    var h := Hit(attacker, target, isMelee, crit);
    AbsorbBounds(target.shield, target.health, h.damage);
  }

  /** The caller's `isMelee` never changes a hit: a thief's is recomputed and nobody else can crit. */
  lemma IsMeleeIgnored(attacker: Character, target: Character, targetPosition: Position, m1: bool, m2: bool, crit: bool)
    ensures Hit(attacker, target, EffectiveMelee(attacker, targetPosition, m1), crit) ==
            Hit(attacker, target, EffectiveMelee(attacker, targetPosition, m2), crit)
  {
  }

  /** One hit per target, in target order. */
  function Hits(attacker: Character, targets: seq<Character>, isMelee: bool, crit: bool): (r: seq<TargetHit>)
    ensures |r| == |targets|
    ensures forall i :: 0 <= i < |targets| ==> r[i] == Hit(attacker, targets[i], isMelee, crit)
  {
    seq(|targets|, i requires 0 <= i < |targets| => Hit(attacker, targets[i], isMelee, crit))
  }

  /** The first hit on the character with id `id`, if any. */
  function HitFor(hits: seq<TargetHit>, id: string): (r: Option<TargetHit>)
    ensures r.Some? ==> r.value in hits && r.value.character.id == id
    ensures r.None? <==> forall h :: h in hits ==> h.character.id != id
  {
    if |hits| == 0 then None
    else if hits[0].character.id == id then Some(hits[0])
    else HitFor(hits[1..], id)
  }

  /** A team after the attack: each member that was hit is replaced by its hit version. */
  function HitTeam(team: seq<Character>, hits: seq<TargetHit>): (r: seq<Character>)
    ensures |r| == |team|
    ensures forall i :: 0 <= i < |team| ==>
              r[i] == (match HitFor(hits, team[i].id) case Some(h) => h.character case None => team[i])
  {
    seq(|team|, i requires 0 <= i < |team| =>
      match HitFor(hits, team[i].id) case Some(h) => h.character case None => team[i])
  }

  /** The id a hit writes back to its cell: the id while alive, nothing once dead. */
  function HitValue(h: TargetHit): Option<string>
  {
    if h.character.isAlive then Some(h.character.id) else None
  }

  /** A board write: a cell and what goes into it. */
  datatype Write = Write(cell: Position, value: Option<string>)

  /** The writes of one team map, member by member: one write per member that was hit. */
  function HitWrites(team: seq<Character>, hits: seq<TargetHit>): (w: seq<Option<Write>>)
    ensures |w| == |team|
    ensures forall i :: 0 <= i < |team| ==>
              w[i] == match HitFor(hits, team[i].id)
                      case Some(h) => Some(Write(h.character.position, HitValue(h)))
                      case None => None
  {
    seq(|team|, i requires 0 <= i < |team| =>
      match HitFor(hits, team[i].id)
      case Some(h) => Some(Write(h.character.position, HitValue(h)))
      case None => None)
  }

  /** Write `i` goes to cell `p`. */
  predicate WritesTo(writes: seq<Option<Write>>, i: int, p: Position)
    requires 0 <= i < |writes|
  {
    writes[i].Some? && writes[i].value.cell == p
  }

  /**
   * `board'` is `board` after the first `k` writes: a cell written to holds
   * the last value written there, and a cell no write reached is unchanged.
   */
  ghost predicate WrittenUpTo(writes: seq<Option<Write>>, board: Grid<string>, board': Grid<string>, k: int)
    requires IsGrid(board) && IsGrid(board') && 0 <= k <= |writes|
    requires forall w :: w in writes && w.Some? ==> IsValidPosition(w.value.cell)
  {
    && (forall i :: 0 <= i < k && writes[i].Some? && (forall j :: i < j < k ==> !WritesTo(writes, j, writes[i].value.cell)) ==>
          At(board', writes[i].value.cell) == writes[i].value.value)
    && (forall p :: IsValidPosition(p) && (forall i :: 0 <= i < k ==> !WritesTo(writes, i, p)) ==>
          At(board', p) == At(board, p))
  }

  lemma WrittenStep(writes: seq<Option<Write>>, board: Grid<string>, b: Grid<string>, k: int)
    requires IsGrid(board) && IsGrid(b) && 0 <= k < |writes|
    requires forall w :: w in writes && w.Some? ==> IsValidPosition(w.value.cell)
    requires WrittenUpTo(writes, board, b, k)
    ensures writes[k].Some? ==>
              assert writes[k] in writes;
              WrittenUpTo(writes, board, Put(b, writes[k].value.cell, writes[k].value.value), k + 1)
    ensures writes[k].None? ==> WrittenUpTo(writes, board, b, k + 1)
  {
    assert writes[k] in writes;
    if writes[k].Some? {
      var q, v := writes[k].value.cell, writes[k].value.value;
      LastWritesStep(writes, board, b, k, q, v);
      UnwrittenStep(writes, board, b, k, q, v);
    }
  }

  /** Each cell whose last write is among the first `k + 1` holds that write's value after write `k`. */
  lemma LastWritesStep(writes: seq<Option<Write>>, board: Grid<string>, b: Grid<string>, k: int, q: Position, v: Option<string>)
    requires IsGrid(board) && IsGrid(b) && 0 <= k < |writes| && writes[k] == Some(Write(q, v)) && IsValidPosition(q)
    requires forall w :: w in writes && w.Some? ==> IsValidPosition(w.value.cell)
    requires WrittenUpTo(writes, board, b, k)
    ensures forall i :: 0 <= i < k + 1 && writes[i].Some? && (forall j :: i < j < k + 1 ==> !WritesTo(writes, j, writes[i].value.cell)) ==>
              At(Put(b, q, v), writes[i].value.cell) == writes[i].value.value
  {
    forall i | 0 <= i < k + 1 && writes[i].Some? && (forall j :: i < j < k + 1 ==> !WritesTo(writes, j, writes[i].value.cell))
      ensures At(Put(b, q, v), writes[i].value.cell) == writes[i].value.value
    {
      if i < k {
        assert !WritesTo(writes, k, writes[i].value.cell);
      }
    }
  }

  /** A cell none of the first `k + 1` writes reached still holds its old value after write `k`. */
  lemma UnwrittenStep(writes: seq<Option<Write>>, board: Grid<string>, b: Grid<string>, k: int, q: Position, v: Option<string>)
    requires IsGrid(board) && IsGrid(b) && 0 <= k < |writes| && writes[k] == Some(Write(q, v)) && IsValidPosition(q)
    requires forall w :: w in writes && w.Some? ==> IsValidPosition(w.value.cell)
    requires WrittenUpTo(writes, board, b, k)
    ensures forall p :: IsValidPosition(p) && (forall i :: 0 <= i < k + 1 ==> !WritesTo(writes, i, p)) ==>
              At(Put(b, q, v), p) == At(board, p)
  {
    forall p | IsValidPosition(p) && (forall i :: 0 <= i < k + 1 ==> !WritesTo(writes, i, p))
      ensures At(Put(b, q, v), p) == At(board, p)
    {
      assert !WritesTo(writes, k, p);
    }
  }

  /**
   * One team map of performAttack: each member that was hit is replaced by its
   * hit version, whose cell gets its id if it survived and is cleared if it
   * died. A cell written by several members keeps the last write.
   */
  method ApplyHits(team: seq<Character>, hits: seq<TargetHit>, board: Grid<string>) returns (team': seq<Character>, board': Grid<string>)
    requires IsGrid(board)
    requires forall h :: h in hits ==> IsValidPosition(h.character.position)
    ensures team' == HitTeam(team, hits)
    ensures forall w :: w in HitWrites(team, hits) && w.Some? ==> IsValidPosition(w.value.cell)
    ensures IsGrid(board') && WrittenUpTo(HitWrites(team, hits), board, board', |team|)
  {
    var writes := HitWrites(team, hits);
    HitWritesOnBoard(team, hits);
    ghost var hitTeam := HitTeam(team, hits);
    team' := [];
    board' := board;
    for k := 0 to |team|
      invariant team' == hitTeam[..k]
      invariant IsGrid(board') && WrittenUpTo(writes, board, board', k)
    {
      var member;
      member, board' := HitMember(team, hits, board, board', k);
      PrefixGrows(hitTeam, k);
      team' := team' + [member];
    }
    assert hitTeam[..|team|] == hitTeam;
  }

  /** The prefix of length `k + 1` is the prefix of length `k` followed by element `k`. */
  lemma PrefixGrows<T>(s: seq<T>, k: int)
    requires 0 <= k < |s|
    ensures s[..k + 1] == s[..k] + [s[k]]
  {
  }

  /** The map callback for member `k`: its hit version if it was hit, with its cell rewritten; otherwise the member as it was. */
  method HitMember(team: seq<Character>, hits: seq<TargetHit>, board: Grid<string>, b: Grid<string>, k: int)
    returns (member: Character, b': Grid<string>)
    requires IsGrid(board) && IsGrid(b) && 0 <= k < |team|
    requires forall w :: w in HitWrites(team, hits) && w.Some? ==> IsValidPosition(w.value.cell)
    requires WrittenUpTo(HitWrites(team, hits), board, b, k)
    ensures member == HitTeam(team, hits)[k]
    ensures IsGrid(b') && WrittenUpTo(HitWrites(team, hits), board, b', k + 1)
  {
    var writes := HitWrites(team, hits);
    WrittenStep(writes, board, b, k);
    var c := team[k];
    var found := HitFor(hits, c.id);
    if found.Some? {
      var h := found.value;
      assert writes[k] == Some(Write(h.character.position, HitValue(h)));
      b' := Put(b, h.character.position, HitValue(h));
      member := h.character;
    } else {
      b' := b;
      member := c;
    }
  }

  /** Every write of a team map goes to a cell of the board. */
  lemma HitWritesOnBoard(team: seq<Character>, hits: seq<TargetHit>)
    requires forall h :: h in hits ==> IsValidPosition(h.character.position)
    ensures forall w :: w in HitWrites(team, hits) && w.Some? ==> IsValidPosition(w.value.cell)
  {
    var writes := HitWrites(team, hits);
    forall w | w in writes && w.Some?
      ensures IsValidPosition(w.value.cell)
    {
      var i :| 0 <= i < |writes| && writes[i] == w;
      assert HitFor(hits, team[i].id).value in hits;
    }
  }

  /** Once a side is wiped out the game is over and the player wins exactly when the player side has survivors; otherwise the flags stay. */
  function CheckAfterAttack(s: GameState): (r: GameState)
    ensures r == s.(gameOver := r.gameOver, winner := r.winner)
    ensures r.gameOver <==> s.gameOver || !AnyAlive(s.playerTeam) || !AnyAlive(s.enemyTeam)
    ensures !AnyAlive(s.playerTeam) || !AnyAlive(s.enemyTeam) ==>
              r.winner == Some(if AnyAlive(s.playerTeam) then Player else Enemy)
    ensures AnyAlive(s.playerTeam) && AnyAlive(s.enemyTeam) ==> r.winner == s.winner
  {
    var playerAlive := AnyAlive(s.playerTeam);
    var enemyAlive := AnyAlive(s.enemyTeam);
    if !playerAlive || !enemyAlive then
      s.(gameOver := true, winner := Some(if playerAlive then Player else Enemy))
    else s
  }

  /** Both team maps of performAttack, then the end-of-game check, keep the state invariant. */
  lemma TeamMapsKeepStateOk(s: GameState, attacker: Character, targets: seq<Character>, isMelee: bool, crit: bool,
                            board: Grid<string>, board': Grid<string>)
    requires StateOk(s)
    requires forall c :: c in targets ==> c in All(s) && c.isAlive
    requires IsGrid(board) && IsGrid(board')
    requires forall w :: w in HitWrites(s.playerTeam, Hits(attacker, targets, isMelee, crit)) && w.Some? ==> IsValidPosition(w.value.cell)
    requires forall w :: w in HitWrites(s.enemyTeam, Hits(attacker, targets, isMelee, crit)) && w.Some? ==> IsValidPosition(w.value.cell)
    requires WrittenUpTo(HitWrites(s.playerTeam, Hits(attacker, targets, isMelee, crit)), s.board, board, |s.playerTeam|)
    requires WrittenUpTo(HitWrites(s.enemyTeam, Hits(attacker, targets, isMelee, crit)), board, board', |s.enemyTeam|)
    ensures var hits := Hits(attacker, targets, isMelee, crit);
            StateOk(CheckAfterAttack(s.(board := board', playerTeam := HitTeam(s.playerTeam, hits), enemyTeam := HitTeam(s.enemyTeam, hits))))
  {
    var hits := Hits(attacker, targets, isMelee, crit);
    HitTeamSplits(s.playerTeam, s.enemyTeam, hits);
    WrittenCompose(HitWrites(s.playerTeam, hits), HitWrites(s.enemyTeam, hits), s.board, board, board');
    AttackKeepsStateOk(s, attacker, targets, isMelee, crit, board');
    CheckKeepsStateOk(s.(board := board', playerTeam := HitTeam(s.playerTeam, hits), enemyTeam := HitTeam(s.enemyTeam, hits)));
  }

  /** The end-of-game check only sets the flags, so it keeps the state invariant. */
  lemma CheckKeepsStateOk(s: GameState)
    requires StateOk(s)
    ensures StateOk(CheckAfterAttack(s))
  {
    assert All(CheckAfterAttack(s)) == All(s);
  }

  /** When both sides are wiped out at once, the enemy is declared the winner. */
  lemma BothWipedOutEnemyWins(s: GameState)
    requires !AnyAlive(s.playerTeam) && !AnyAlive(s.enemyTeam)
    ensures CheckAfterAttack(s).gameOver && CheckAfterAttack(s).winner == Some(Enemy)
  {
  }

  /**
   * performAttack. A missing or dead attacker, a target out of reach or an
   * empty cell, or a mage with nobody in range: no result, same state.
   * Otherwise every target is hit once, both teams are rebuilt with the hit
   * versions, the board loses those who died, and the end of the game is
   * checked. The crit draw is the oracle `crit`.
   */
  method PerformAttack(s: GameState, attackerId: string, targetPosition: Position, isMelee: bool, crit: bool) returns (r: AttackOutcome)
    requires IsGrid(s.board) && forall c :: c in All(s) ==> IsValidPosition(c.position)
    ensures FindById(All(s), attackerId).None? || !FindById(All(s), attackerId).value.isAlive ==> r == AttackOutcome(s, None)
    ensures FindById(All(s), attackerId).Some? && FindById(All(s), attackerId).value.isAlive ==>
              var attacker := FindById(All(s), attackerId).value;
              var targets := AttackTargets(attacker, AliveOnly(All(s)), targetPosition);
              var hits := Hits(attacker, targets, EffectiveMelee(attacker, targetPosition, isMelee), crit);
              && (targets == [] ==> r == AttackOutcome(s, None))
              && (targets != [] ==>
                   && r.attackResult == Some(AttackResult(attacker, hits))
                   && r.gameState.playerTeam == HitTeam(s.playerTeam, hits)
                   && r.gameState.enemyTeam == HitTeam(s.enemyTeam, hits)
                   && r.gameState == CheckAfterAttack(s.(board := r.gameState.board, playerTeam := r.gameState.playerTeam,
                                                         enemyTeam := r.gameState.enemyTeam)))
    ensures StateOk(s) ==> StateOk(r.gameState)
  {
    var found := FindById(All(s), attackerId);
    if found.None? || !found.value.isAlive {
      return AttackOutcome(s, None);
    }
    var attacker := found.value;
    var targets := AttackTargets(attacker, AliveOnly(All(s)), targetPosition);
    if |targets| == 0 {
      return AttackOutcome(s, None);
    }
    var hits := Hits(attacker, targets, EffectiveMelee(attacker, targetPosition, isMelee), crit);
    forall h | h in hits
      ensures IsValidPosition(h.character.position)
    {
      var i :| 0 <= i < |hits| && hits[i] == h;
      assert targets[i] in All(s);
    }
    var playerTeam, board := ApplyHits(s.playerTeam, hits, s.board);
    var enemyTeam, board' := ApplyHits(s.enemyTeam, hits, board);
    var after := s.(board := board', playerTeam := playerTeam, enemyTeam := enemyTeam);
    if StateOk(s) {
      TeamMapsKeepStateOk(s, attacker, targets, EffectiveMelee(attacker, targetPosition, isMelee), crit, board, board');
    }
    r := AttackOutcome(CheckAfterAttack(after), Some(AttackResult(attacker, hits)));
  }

  // ---------------------------------------------------------------------
  // The attack keeps the state invariant

  /** Writing one list of writes and then another is writing the joined list. */
  lemma WrittenCompose(w1: seq<Option<Write>>, w2: seq<Option<Write>>, b0: Grid<string>, b1: Grid<string>, b2: Grid<string>)
    requires IsGrid(b0) && IsGrid(b1) && IsGrid(b2)
    requires forall w :: w in w1 + w2 && w.Some? ==> IsValidPosition(w.value.cell)
    requires WrittenUpTo(w1, b0, b1, |w1|) && WrittenUpTo(w2, b1, b2, |w2|)
    ensures WrittenUpTo(w1 + w2, b0, b2, |w1 + w2|)
  {
    var w := w1 + w2;
    forall i | 0 <= i < |w| && w[i].Some? && (forall j :: i < j < |w| ==> !WritesTo(w, j, w[i].value.cell))
      ensures At(b2, w[i].value.cell) == w[i].value.value
    {
      var q := w[i].value.cell;
      assert w[i] in w;
      WritesSplit(w1, w2, i + 1, q);
      if i >= |w1| {
        assert w2[i - |w1|] == w[i];
      } else {
        assert w1[i] == w[i];
      }
    }
    forall p | IsValidPosition(p) && (forall i :: 0 <= i < |w| ==> !WritesTo(w, i, p))
      ensures At(b2, p) == At(b0, p)
    {
      WritesSplit(w1, w2, 0, p);
    }
  }

  /** No write from index `lo` on of the joined list reaches `q`: then neither does one of either part from there on. */
  lemma WritesSplit(w1: seq<Option<Write>>, w2: seq<Option<Write>>, lo: nat, q: Position)
    requires forall j :: lo <= j < |w1 + w2| ==> !WritesTo(w1 + w2, j, q)
    ensures forall j :: lo <= j < |w1| ==> !WritesTo(w1, j, q)
    ensures forall j :: 0 <= j < |w2| && lo <= j + |w1| ==> !WritesTo(w2, j, q)
  {
    var w := w1 + w2;
    forall j | lo <= j < |w1| ensures !WritesTo(w1, j, q) {
      assert w1[j] == w[j];
      assert !WritesTo(w, j, q);
    }
    forall j | 0 <= j < |w2| && lo <= j + |w1| ensures !WritesTo(w2, j, q) {
      assert w2[j] == w[j + |w1|];
      assert !WritesTo(w, j + |w1|, q);
    }
  }

  lemma HitTeamSplits(p: seq<Character>, e: seq<Character>, hits: seq<TargetHit>)
    ensures HitTeam(p + e, hits) == HitTeam(p, hits) + HitTeam(e, hits)
    ensures HitWrites(p + e, hits) == HitWrites(p, hits) + HitWrites(e, hits)
  {
    var a, b := HitTeam(p + e, hits), HitTeam(p, hits) + HitTeam(e, hits);
    forall i | 0 <= i < |a| ensures a[i] == b[i] {
      if i >= |p| { assert (p + e)[i] == e[i - |p|]; }
    }
    var c, d := HitWrites(p + e, hits), HitWrites(p, hits) + HitWrites(e, hits);
    forall i | 0 <= i < |c| ensures c[i] == d[i] {
      if i >= |p| { assert (p + e)[i] == e[i - |p|]; }
    }
  }

  /** Every hit a member receives is the hit of that very member, and only living members are hit. */
  ghost predicate HitsOnMembers(all: seq<Character>, hits: seq<TargetHit>, attacker: Character, isMelee: bool, crit: bool)
  {
    forall i :: 0 <= i < |all| && HitFor(hits, all[i].id).Some? ==>
      HitFor(hits, all[i].id).value == Hit(attacker, all[i], isMelee, crit) && all[i].isAlive
  }

  lemma TargetsAreMembers(all: seq<Character>, attacker: Character, targets: seq<Character>, isMelee: bool, crit: bool)
    requires UniqueIds(all)
    requires forall c :: c in targets ==> c in all && c.isAlive
    ensures HitsOnMembers(all, Hits(attacker, targets, isMelee, crit), attacker, isMelee, crit)
  {
    var hits := Hits(attacker, targets, isMelee, crit);
    forall i | 0 <= i < |all| && HitFor(hits, all[i].id).Some?
      ensures HitFor(hits, all[i].id).value == Hit(attacker, all[i], isMelee, crit) && all[i].isAlive
    {
      var h := HitFor(hits, all[i].id).value;
      var j :| 0 <= j < |hits| && hits[j] == h;
      var t := targets[j];
      assert t in targets;
      var i' :| 0 <= i' < |all| && all[i'] == t;
      FindMember(all, i);
      FindMember(all, i');
    }
  }

  /** The board after all writes clears the cells of members who died and keeps every other cell. */
  lemma BoardAfterHits(board: Grid<string>, all: seq<Character>, hits: seq<TargetHit>, attacker: Character, isMelee: bool, crit: bool,
                       board': Grid<string>)
    requires BoardAgrees(board, all) && HitsOnMembers(all, hits, attacker, isMelee, crit)
    requires IsGrid(board')
    requires forall w :: w in HitWrites(all, hits) && w.Some? ==> IsValidPosition(w.value.cell)
    requires WrittenUpTo(HitWrites(all, hits), board, board', |all|)
    ensures forall p :: IsValidPosition(p) ==>
              At(board', p) == if At(board, p).Some? && !HitTeam(all, hits)[IndexOfId(all, At(board, p).value)].isAlive then None else At(board, p)
  {
    forall p | IsValidPosition(p)
      ensures At(board', p) == if At(board, p).Some? && !HitTeam(all, hits)[IndexOfId(all, At(board, p).value)].isAlive then None else At(board, p)
    {
      CellAfterHits(board, all, hits, attacker, isMelee, crit, board', p);
    }
  }

  /** Only the member whose id cell `p` holds can write to `p`. */
  lemma OnlyStanderWrites(board: Grid<string>, all: seq<Character>, hits: seq<TargetHit>, attacker: Character, isMelee: bool, crit: bool,
                          p: Position, i: int)
    requires BoardAgrees(board, all) && HitsOnMembers(all, hits, attacker, isMelee, crit)
    requires 0 <= i < |all| && WritesTo(HitWrites(all, hits), i, p)
    ensures At(board, p) == Some(all[i].id) && IndexOfId(all, all[i].id) == i
  {
    assert all[i] in all;
    FindMember(all, i);
  }

  /** After all writes, a cell last written by write `k` holds its value. */
  lemma LastWriteHolds(writes: seq<Option<Write>>, board: Grid<string>, board': Grid<string>, k: int)
    requires IsGrid(board) && IsGrid(board') && 0 <= k < |writes|
    requires forall w :: w in writes && w.Some? ==> IsValidPosition(w.value.cell)
    requires WrittenUpTo(writes, board, board', |writes|)
    requires writes[k].Some? && forall j :: k < j < |writes| ==> !WritesTo(writes, j, writes[k].value.cell)
    ensures At(board', writes[k].value.cell) == writes[k].value.value
  {
  }

  /** After all writes, a cell no write reached holds what it held before. */
  lemma UnwrittenHolds(writes: seq<Option<Write>>, board: Grid<string>, board': Grid<string>, p: Position)
    requires IsGrid(board) && IsGrid(board') && IsValidPosition(p)
    requires forall w :: w in writes && w.Some? ==> IsValidPosition(w.value.cell)
    requires WrittenUpTo(writes, board, board', |writes|)
    requires forall i :: 0 <= i < |writes| ==> !WritesTo(writes, i, p)
    ensures At(board', p) == At(board, p)
  {
  }

  /** One cell of `BoardAfterHits`: only the member standing on `p` can write to it. */
  lemma CellAfterHits(board: Grid<string>, all: seq<Character>, hits: seq<TargetHit>, attacker: Character, isMelee: bool, crit: bool,
                      board': Grid<string>, p: Position)
    requires BoardAgrees(board, all) && HitsOnMembers(all, hits, attacker, isMelee, crit)
    requires IsGrid(board') && IsValidPosition(p)
    requires forall w :: w in HitWrites(all, hits) && w.Some? ==> IsValidPosition(w.value.cell)
    requires WrittenUpTo(HitWrites(all, hits), board, board', |all|)
    ensures At(board', p) == if At(board, p).Some? && !HitTeam(all, hits)[IndexOfId(all, At(board, p).value)].isAlive then None else At(board, p)
  {
    if At(board, p).Some? {
      OccupiedCellAfterHits(board, all, hits, attacker, isMelee, crit, board', p);
    } else {
      EmptyCellAfterHits(board, all, hits, attacker, isMelee, crit, board', p);
    }
  }

  /** An occupied cell ends up cleared if its member died and kept otherwise. */
  lemma OccupiedCellAfterHits(board: Grid<string>, all: seq<Character>, hits: seq<TargetHit>, attacker: Character, isMelee: bool, crit: bool,
                              board': Grid<string>, p: Position)
    requires BoardAgrees(board, all) && HitsOnMembers(all, hits, attacker, isMelee, crit)
    requires IsGrid(board') && IsValidPosition(p) && At(board, p).Some?
    requires forall w :: w in HitWrites(all, hits) && w.Some? ==> IsValidPosition(w.value.cell)
    requires WrittenUpTo(HitWrites(all, hits), board, board', |all|)
    ensures At(board', p) == if !HitTeam(all, hits)[IndexOfId(all, At(board, p).value)].isAlive then None else At(board, p)
  {
    var writes := HitWrites(all, hits);
    var k := IndexOfId(all, At(board, p).value);
    forall j | 0 <= j < |all| && WritesTo(writes, j, p)
      ensures j == k
    {
      OnlyStanderWrites(board, all, hits, attacker, isMelee, crit, p, j);
    }
    if writes[k].Some? {
      assert all[k] in all;
      assert WritesTo(writes, k, p);
      LastWriteHolds(writes, board, board', k);
    } else {
      UnwrittenHolds(writes, board, board', p);
    }
  }

  /** An empty cell stays empty: no member writes to it. */
  lemma EmptyCellAfterHits(board: Grid<string>, all: seq<Character>, hits: seq<TargetHit>, attacker: Character, isMelee: bool, crit: bool,
                           board': Grid<string>, p: Position)
    requires BoardAgrees(board, all) && HitsOnMembers(all, hits, attacker, isMelee, crit)
    requires IsGrid(board') && IsValidPosition(p) && At(board, p).None?
    requires forall w :: w in HitWrites(all, hits) && w.Some? ==> IsValidPosition(w.value.cell)
    requires WrittenUpTo(HitWrites(all, hits), board, board', |all|)
    ensures At(board', p) == None
  {
    var writes := HitWrites(all, hits);
    forall j | 0 <= j < |all|
      ensures !WritesTo(writes, j, p)
    {
      if WritesTo(writes, j, p) {
        OnlyStanderWrites(board, all, hits, attacker, isMelee, crit, p, j);
      }
    }
    UnwrittenHolds(writes, board, board', p);
  }


  /** A hit member keeps its id, position and team, cannot come back to life, and stays well formed. */
  lemma HitMembers(all: seq<Character>, hits: seq<TargetHit>, attacker: Character, isMelee: bool, crit: bool)
    requires HitsOnMembers(all, hits, attacker, isMelee, crit)
    requires forall c :: c in all ==> CharacterOk(c)
    ensures SameFootprint(all, HitTeam(all, hits))
    ensures forall i :: 0 <= i < |all| ==> HitTeam(all, hits)[i].team == all[i].team
    ensures forall i :: 0 <= i < |all| && HitTeam(all, hits)[i].isAlive ==> all[i].isAlive
    ensures forall c :: c in HitTeam(all, hits) ==> CharacterOk(c)
  {
    var all' := HitTeam(all, hits);
    forall i | 0 <= i < |all|
      ensures all'[i].id == all[i].id && all'[i].position == all[i].position && all'[i].team == all[i].team
      ensures all'[i].isAlive ==> all[i].isAlive
      ensures CharacterOk(all'[i])
    {
      assert all[i] in all;
      if HitFor(hits, all[i].id).Some? {
        HitKeepsCharacterOk(attacker, all[i], isMelee, crit);
      }
    }
  }

  /** Hitting members keeps their tags, so a tagged team stays tagged. */
  lemma HitTeamTagged(team: seq<Character>, hits: seq<TargetHit>, attacker: Character, isMelee: bool, crit: bool, t: Team)
    requires HitsOnMembers(team, hits, attacker, isMelee, crit)
    requires forall c :: c in team ==> c.team == t
    ensures forall c :: c in HitTeam(team, hits) ==> c.team == t
  {
    var team' := HitTeam(team, hits);
    forall c | c in team' ensures c.team == t {
      var i :| 0 <= i < |team'| && team'[i] == c;
      assert team[i] in team;
    }
  }

  /** The hits on a joined list are hits on the members of either part. */
  lemma HitsOnParts(p: seq<Character>, e: seq<Character>, hits: seq<TargetHit>, attacker: Character, isMelee: bool, crit: bool)
    requires HitsOnMembers(p + e, hits, attacker, isMelee, crit)
    ensures HitsOnMembers(p, hits, attacker, isMelee, crit) && HitsOnMembers(e, hits, attacker, isMelee, crit)
  {
    forall i | 0 <= i < |p| && HitFor(hits, p[i].id).Some?
      ensures HitFor(hits, p[i].id).value == Hit(attacker, p[i], isMelee, crit) && p[i].isAlive
    {
      JoinedAt(p, e, i);
    }
    forall i | 0 <= i < |e| && HitFor(hits, e[i].id).Some?
      ensures HitFor(hits, e[i].id).value == Hit(attacker, e[i], isMelee, crit) && e[i].isAlive
    {
      JoinedAt(p, e, |p| + i);
    }
  }


  /** The invariant part of performAttack, from the two team maps to the final state. */
  lemma AttackKeepsStateOk(s: GameState, attacker: Character, targets: seq<Character>, isMelee: bool, crit: bool,
                           board': Grid<string>)
    requires StateOk(s)
    requires forall c :: c in targets ==> c in All(s) && c.isAlive
    requires IsGrid(board')
    requires forall w :: w in HitWrites(All(s), Hits(attacker, targets, isMelee, crit)) && w.Some? ==> IsValidPosition(w.value.cell)
    requires WrittenUpTo(HitWrites(All(s), Hits(attacker, targets, isMelee, crit)), s.board, board', |All(s)|)
    ensures var hits := Hits(attacker, targets, isMelee, crit);
            StateOk(s.(board := board', playerTeam := HitTeam(s.playerTeam, hits), enemyTeam := HitTeam(s.enemyTeam, hits)))
  {
    var hits := Hits(attacker, targets, isMelee, crit);
    var all := All(s);
    var all' := HitTeam(all, hits);
    HitTeamSplits(s.playerTeam, s.enemyTeam, hits);
    TargetsAreMembers(all, attacker, targets, isMelee, crit);
    BoardAfterHits(s.board, all, hits, attacker, isMelee, crit, board');
    HitMembers(all, hits, attacker, isMelee, crit);
    AgreementAfterDeaths(s.board, all, all', board');
    HitsOnParts(s.playerTeam, s.enemyTeam, hits, attacker, isMelee, crit);
    HitTeamTagged(s.playerTeam, hits, attacker, isMelee, crit, Player);
    HitTeamTagged(s.enemyTeam, hits, attacker, isMelee, crit, Enemy);
  }

  /** Members whose id no target carries, the attacker among them, leave the attack unchanged. */
  lemma UntargetedUnchanged(team: seq<Character>, attacker: Character, targets: seq<Character>, isMelee: bool, crit: bool)
    ensures forall i :: 0 <= i < |team| && (forall t :: t in targets ==> t.id != team[i].id) ==>
              HitTeam(team, Hits(attacker, targets, isMelee, crit))[i] == team[i]
  {
    var hits := Hits(attacker, targets, isMelee, crit);
    forall i | 0 <= i < |team| && (forall t :: t in targets ==> t.id != team[i].id)
      ensures HitFor(hits, team[i].id).None?
    {
      forall h | h in hits ensures h.character.id != team[i].id {
        var j :| 0 <= j < |hits| && hits[j] == h;
        assert targets[j] in targets;
      }
    }
  }
}
