/**
 * lib/game/combat.ts: the attack rules of the object-based engine. Damage,
 * reach and the choice of targets only read the character objects; carrying
 * out an attack updates the struck objects and the attacker in place.
 *
 * It differs from the attack of lib/game/gameLogic.ts (module GameAttack):
 * a mage strikes everyone within 4 of the clicked cell rather than within 3
 * of itself, the thief's critical hit doubles the damage before the permanent
 * boost is added rather than after, and the attacker spends one attack.
 */
module Combat {
  import opened Wrappers
  import opened Geometry
  import opened Constants
  import opened Types
  import opened Utils
  import opened BoardTypes
  import GameAttack

  /** Reach of a mage's area attack around the clicked cell, and of a thief's shot. */
  const COMBAT_REACH: nat := 4

  datatype Strike = Strike(damage: int, isCritical: bool)

  /**
   * calculateDamage of combat.ts. `crit` is the outcome of the coin flip
   * (a uniform draw below one half); it only matters for a thief in melee.
   */
  function StrikeDamage(attacker: Character, target: Character, crit: bool): (r: Strike)
    ensures r.damage >= 0
    ensures r.isCritical <==> attacker.kind == Thief && Distance(attacker.position, target.position) <= 1 && crit
    ensures r.damage == Max(0, (if r.isCritical then 2 else 1) * CalculateDamage(attacker.kind, target.kind, 0) + attacker.damageBoost - target.armor)
  {
    var damage := TriangleDamage(attacker.kind, target.kind);
    var isCritical := attacker.kind == Thief && Distance(attacker.position, target.position) <= 1 && crit;
    var damage := if isCritical then damage * 2 else damage;
    var damage := damage + attacker.damageBoost;
    Strike(Max(0, damage - target.armor), isCritical)
  }

  /**
   * The two engines agree on the damage of an ordinary hit. On a critical hit
   * the object engine doubles before adding the boost, so it deals exactly the
   * boost less than the state engine whenever it deals anything, and never more.
   */
  lemma CriticalOrder(attacker: Character, target: Character, crit: bool)
    requires attacker.damageBoost >= 0
    ensures var s := StrikeDamage(attacker, target, crit);
            var h := GameAttack.Hit(attacker, target, Distance(attacker.position, target.position) <= 1, crit);
            && h.isCritical == s.isCritical
            && (!s.isCritical ==> h.damage == s.damage)
            && (s.isCritical ==> s.damage <= h.damage)
            && (s.isCritical && s.damage > 0 ==> h.damage == s.damage + attacker.damageBoost)
  {
  }

  /**
   * canAttack of combat.ts. The board argument of the source is never
   * consulted, so it is not a parameter here.
   */
  predicate CanStrike(attacker: Character, targetPos: Position)
  {
    var d := Distance(attacker.position, targetPos);
    match attacker.kind
    case Warrior => d == 1
    case Mage => d <= 4
    case Thief => d >= 1 && d <= 4
    case Royal => d == 1
  }

  /**
   * Against the ATTACK_RANGES table: warriors, royals and thieves strike from
   * 1 up to their range, while a mage reaches one cell further than its table
   * range of 3, and may also aim at its own cell.
   */
  lemma CanStrikeVsRanges(attacker: Character, targetPos: Position)
    ensures attacker.kind != Mage ==>
      (CanStrike(attacker, targetPos) <==> 1 <= Distance(attacker.position, targetPos) <= AttackRange(attacker.kind))
    ensures attacker.kind == Mage ==>
      (CanStrike(attacker, targetPos) <==> Distance(attacker.position, targetPos) <= AttackRange(Mage) + 1)
  {
  }

  /** Row-major order of cells: the order in which the mage's scan visits them. */
  predicate ScannedBefore(p: Position, q: Position)
  {
    p.y < q.y || (p.y == q.y && p.x < q.x)
  }

  /** A cell whose occupant a mage aiming at `targetPos` strikes, on the board `view`. */
  predicate InBlast(attacker: Character, targetPos: Position, view: Grid<Character>, p: Position)
    requires IsGrid(view)
  {
    IsValidPosition(p) && Distance(targetPos, p) <= COMBAT_REACH
    && At(view, p).Some? && At(view, p).value.id != attacker.id
  }

  /**
   * The cells whose occupants an attack aimed at `targetPos` strikes. For a
   * mage, exactly the blast cells, in scan order; otherwise the aimed cell
   * alone when someone other than the attacker stands on it, and none otherwise.
   */
  ghost predicate IsTargetCells(attacker: Character, targetPos: Position, view: Grid<Character>, cells: seq<Position>)
    requires IsGrid(view)
  {
    if attacker.kind == Mage then
      && (forall i :: 0 <= i < |cells| ==> InBlast(attacker, targetPos, view, cells[i]))
      && (forall i, j :: 0 <= i < j < |cells| ==> ScannedBefore(cells[i], cells[j]))
      && (forall p :: InBlast(attacker, targetPos, view, p) ==> p in cells)
    else
      cells == if IsValidPosition(targetPos) && At(view, targetPos).Some? && At(view, targetPos).value.id != attacker.id
               then [targetPos] else []
  }

  /** `targets` are the objects standing on `cells`, one for one. */
  predicate Occupants(board: Grid<Unit>, cells: seq<Position>, targets: seq<Unit>)
    requires IsGrid(board)
  {
    |cells| == |targets| &&
    forall i :: 0 <= i < |cells| ==> IsValidPosition(cells[i]) && At(board, cells[i]) == Some(targets[i])
  }

  /**
   * getAttackTargets of combat.ts. The mage's scan covers the square of side 9
   * around the aimed cell clipped to the board, and keeps the cells within
   * Manhattan distance 4. The targets are the occupants, one for one, of
   * the cells the attack strikes.
   */
  method GetAttackTargets(attacker: Unit, targetPos: Position, board: Grid<Unit>) returns (targets: seq<Unit>)
    requires IsGrid(board)
    ensures exists cells :: IsTargetCells(attacker.state, targetPos, View(board), cells) && Occupants(board, cells, targets)
  {
    ghost var view := View(board);
    ghost var cells: seq<Position>;
    if attacker.state.kind == Mage {
      targets, cells := [], [];
      var y := Max(0, targetPos.y - 4);
      while y <= Min(15, targetPos.y + 4)
        invariant y >= 0 && view == View(board)
        invariant Occupants(board, cells, targets)
        invariant forall i :: 0 <= i < |cells| ==> InBlast(attacker.state, targetPos, view, cells[i]) && cells[i].y < y
        invariant forall i, j :: 0 <= i < j < |cells| ==> ScannedBefore(cells[i], cells[j])
        invariant forall p :: InBlast(attacker.state, targetPos, view, p) && p.y < y ==> p in cells
      {
        targets, cells := ScanRow(attacker.state, targetPos, board, view, y, targets, cells);
        y := y + 1;
      }
    } else {
      var cell := if IsValidPosition(targetPos) then At(board, targetPos) else None;
      if cell.Some? && cell.value.state.id != attacker.state.id {
        targets, cells := [cell.value], [targetPos];
      } else {
        targets, cells := [], [];
      }
    }
    assert IsTargetCells(attacker.state, targetPos, View(board), cells) && Occupants(board, cells, targets);
  }

  /** One row `y` of the mage's scan, appended to what the earlier rows found. */
  method ScanRow(attacker: Character, targetPos: Position, board: Grid<Unit>, ghost view: Grid<Character>, y: int,
                 targets0: seq<Unit>, ghost cells0: seq<Position>)
    returns (targets: seq<Unit>, ghost cells: seq<Position>)
    requires IsGrid(board) && 0 <= y < BOARD_SIZE
    requires view == View(board)
    requires Occupants(board, cells0, targets0)
    requires forall i :: 0 <= i < |cells0| ==> InBlast(attacker, targetPos, view, cells0[i]) && cells0[i].y < y
    requires forall i, j :: 0 <= i < j < |cells0| ==> ScannedBefore(cells0[i], cells0[j])
    ensures Occupants(board, cells, targets) && cells0 <= cells
    ensures view == View(board)
    ensures forall i :: 0 <= i < |cells| ==> InBlast(attacker, targetPos, view, cells[i]) && cells[i].y <= y
    ensures forall i, j :: 0 <= i < j < |cells| ==> ScannedBefore(cells[i], cells[j])
    ensures forall p :: InBlast(attacker, targetPos, view, p) && p.y == y ==> p in cells
  {
    targets, cells := targets0, cells0;
    var x := Max(0, targetPos.x - 4);
    while x <= Min(15, targetPos.x + 4)
      invariant 0 <= x && view == View(board)
      invariant cells0 <= cells
      invariant ScanSoFar(attacker, targetPos, board, view, y, x, cells, targets)
    {
      var p := Position(x, y);
      var cell := board[y][x];
      var hit := Distance(targetPos, p) <= 4 && cell.Some? && cell.value.state.id != attacker.id;
      assert At(view, p) == if cell.Some? then Some(cell.value.state) else None;
      ScanStep(attacker, targetPos, board, view, y, x, cells, targets, hit);
      if hit {
        targets := targets + [cell.value];
        cells := cells + [p];
      }
      x := x + 1;
    }
    forall q | InBlast(attacker, targetPos, view, q) && q.y == y
      ensures q in cells
    {
      assert q.x < x;
    }
  }

  /** What the scan of row `y` has found once it reaches column `x`: every blast cell before it, in scan order. */
  ghost predicate ScanSoFar(attacker: Character, targetPos: Position, board: Grid<Unit>, view: Grid<Character>, y: int, x: int,
                            cells: seq<Position>, targets: seq<Unit>)
    requires IsGrid(board) && IsGrid(view)
  {
    && Occupants(board, cells, targets)
    && (forall i :: 0 <= i < |cells| ==> InBlast(attacker, targetPos, view, cells[i]))
    && (forall i :: 0 <= i < |cells| ==> ScannedBefore(cells[i], Position(x, y)))
    && (forall i, j :: 0 <= i < j < |cells| ==> ScannedBefore(cells[i], cells[j]))
    && (forall p :: InBlast(attacker, targetPos, view, p) && p.y == y && p.x < x ==> p in cells)
  }

  /** Visiting cell (`x`, `y`) keeps what the scan has found, adding that cell exactly when it is in the blast. */
  lemma ScanStep(attacker: Character, targetPos: Position, board: Grid<Unit>, view: Grid<Character>, y: int, x: int,
                 cells: seq<Position>, targets: seq<Unit>, hit: bool)
    requires IsGrid(board) && IsGrid(view) && 0 <= y < BOARD_SIZE && 0 <= x < BOARD_SIZE
    requires ScanSoFar(attacker, targetPos, board, view, y, x, cells, targets)
    requires hit == InBlast(attacker, targetPos, view, Position(x, y))
    requires hit ==> At(board, Position(x, y)).Some?
    ensures hit ==> ScanSoFar(attacker, targetPos, board, view, y, x + 1, cells + [Position(x, y)], targets + [At(board, Position(x, y)).value])
    ensures !hit ==> ScanSoFar(attacker, targetPos, board, view, y, x + 1, cells, targets)
  {
    if hit {
      ScanHit(attacker, targetPos, board, view, y, x, cells, targets);
    }
  }

  lemma ScanHit(attacker: Character, targetPos: Position, board: Grid<Unit>, view: Grid<Character>, y: int, x: int,
                cells: seq<Position>, targets: seq<Unit>)
    requires IsGrid(board) && IsGrid(view) && 0 <= y < BOARD_SIZE && 0 <= x < BOARD_SIZE
    requires ScanSoFar(attacker, targetPos, board, view, y, x, cells, targets)
    requires InBlast(attacker, targetPos, view, Position(x, y)) && At(board, Position(x, y)).Some?
    ensures ScanSoFar(attacker, targetPos, board, view, y, x + 1, cells + [Position(x, y)], targets + [At(board, Position(x, y)).value])
  {
    var p := Position(x, y);
    var cells', targets' := cells + [p], targets + [At(board, p).value];
    assert forall i :: 0 <= i < |cells| ==> cells'[i] == cells[i] && targets'[i] == targets[i];
    assert cells'[|cells|] == p && targets'[|cells|] == At(board, p).value;
    assert Occupants(board, cells', targets');
    assert forall i, j :: 0 <= i < j < |cells'| ==> ScannedBefore(cells'[i], cells'[j]);
  }

  /** Two lists of cells in strict scan order holding the same cells are the same list. */
  lemma {:induction false} ScanOrderUnique(a: seq<Position>, b: seq<Position>)
    requires forall i, j :: 0 <= i < j < |a| ==> ScannedBefore(a[i], a[j])
    requires forall i, j :: 0 <= i < j < |b| ==> ScannedBefore(b[i], b[j])
    requires forall p :: p in a <==> p in b
    ensures a == b
  {
    assert a != [] ==> a[0] in a && a[0] in b;
    assert b != [] ==> b[0] in b && b[0] in a;
    if a != [] {
      var k :| 0 <= k < |b| && b[k] == a[0];
      var m :| 0 <= m < |a| && a[m] == b[0];
      assert a[0] == b[0];
      assert a == [a[0]] + a[1..] && b == [b[0]] + b[1..];
      forall p
        ensures p in a[1..] <==> p in b[1..]
      {
        if p in a[1..] {
          var i :| 1 <= i < |a| && a[i] == p;
          assert ScannedBefore(a[0], p) && p in b;
          var j :| 0 <= j < |b| && b[j] == p;
          assert j != 0 && b[1..][j - 1] == p;
        }
        if p in b[1..] {
          var i :| 1 <= i < |b| && b[i] == p;
          assert ScannedBefore(b[0], p) && p in a;
          var j :| 0 <= j < |a| && a[j] == p;
          assert j != 0 && a[1..][j - 1] == p;
        }
      }
      ScanOrderUnique(a[1..], b[1..]);
    }
  }

  /**
   * The struck cells are determined by the attack and the board, so the
   * targets of `GetAttackTargets` are too: any two answers meeting its
   * contract are the same list of objects.
   */
  lemma TargetsDetermined(attacker: Character, targetPos: Position, board: Grid<Unit>,
                          cells1: seq<Position>, targets1: seq<Unit>, cells2: seq<Position>, targets2: seq<Unit>)
    requires IsGrid(board)
    requires IsTargetCells(attacker, targetPos, View(board), cells1) && Occupants(board, cells1, targets1)
    requires IsTargetCells(attacker, targetPos, View(board), cells2) && Occupants(board, cells2, targets2)
    ensures cells1 == cells2 && targets1 == targets2
  {
    if attacker.kind == Mage {
      ScanOrderUnique(cells1, cells2);
    }
    forall i | 0 <= i < |targets1|
      ensures targets1[i] == targets2[i]
    {
      assert At(board, cells1[i]) == Some(targets1[i]);
    }
  }

  /** `GetAttackTargets` together with the cells its answer stands on; the targets are distinct and other than the attacker. */
  method TargetsWithCells(attacker: Unit, targetPos: Position, board: Grid<Unit>) returns (targets: seq<Unit>, ghost cells: seq<Position>)
    requires IsGrid(board) && OneCellEach(board)
    ensures IsTargetCells(attacker.state, targetPos, View(board), cells) && Occupants(board, cells, targets)
    ensures forall i, j :: 0 <= i < j < |targets| ==> targets[i] != targets[j]
    ensures forall i :: 0 <= i < |targets| ==> targets[i] != attacker
  {
    targets := GetAttackTargets(attacker, targetPos, board);
    cells :| IsTargetCells(attacker.state, targetPos, View(board), cells) && Occupants(board, cells, targets);
    TargetsDistinct(attacker, targetPos, board, targets, cells);
  }

  /**
   * Targets stand on distinct cells, so when no object stands on two cells they
   * are distinct objects; none of them is the attacker, whose id they lack.
   */
  lemma TargetsDistinct(attacker: Unit, targetPos: Position, board: Grid<Unit>, targets: seq<Unit>, cells: seq<Position>)
    requires IsGrid(board) && OneCellEach(board)
    requires IsTargetCells(attacker.state, targetPos, View(board), cells)
    requires Occupants(board, cells, targets)
    ensures forall i, j :: 0 <= i < j < |targets| ==> targets[i] != targets[j]
    ensures forall i :: 0 <= i < |targets| ==> targets[i] != attacker
  {
    var view := View(board);
    forall i | 0 <= i < |targets|
      ensures targets[i] != attacker
    {
      assert At(view, cells[i]) == Some(targets[i].state);
      if attacker.state.kind == Mage {
        assert InBlast(attacker.state, targetPos, view, cells[i]);
      }
    }
    forall i, j | 0 <= i < j < |targets|
      ensures targets[i] != targets[j]
    {
      assert ScannedBefore(cells[i], cells[j]);
    }
  }

  /** A struck character: shield first, health floored at 0, alive iff health remains. */
  function Struck(target: Character, damage: int): (c: Character)
    ensures (c.shield, c.health) == GameAttack.Absorb(target.shield, target.health, damage)
    ensures c.isAlive <==> c.health > 0
    ensures c == target.(health := c.health, shield := c.shield, isAlive := c.isAlive)
  {
    var (shield, health) := GameAttack.Absorb(target.shield, target.health, damage);
    target.(health := health, shield := shield, isAlive := health > 0)
  }

  /** Both engines update a struck character the same way for the same damage. */
  lemma StruckAsInStateEngine(attacker: Character, target: Character, isMelee: bool, crit: bool)
    ensures var h := GameAttack.Hit(attacker, target, isMelee, crit);
            h.character == Struck(target, h.damage)
  {
  }

  datatype UnitHit = UnitHit(unit: Unit, damage: int, isCritical: bool)

  datatype UnitAttack = UnitAttack(attacker: Unit, targets: seq<UnitHit>)

  function HitUnits(hits: seq<UnitHit>): (r: seq<Unit>)
    ensures |r| == |hits| && forall i :: 0 <= i < |hits| ==> r[i] == hits[i].unit
  {
    if hits == [] then [] else [hits[0].unit] + HitUnits(hits[1..])
  }

  /**
   * executeAttack of combat.ts: one entry per target, in the order of
   * `GetAttackTargets`; each target object is struck by the damage computed
   * from the attacker and the target as they were; the attacker spends one
   * attack and keeps its damage boost; every other object is untouched.
   */
  method ExecuteAttack(attacker: Unit, targetPos: Position, board: Grid<Unit>, crit: bool) returns (r: UnitAttack, ghost cells: seq<Position>)
    requires IsGrid(board) && OneCellEach(board)
    modifies BoardUnits(board), attacker
    ensures r.attacker == attacker
    ensures IsTargetCells(old(attacker.state), targetPos, old(View(board)), cells)
    ensures Occupants(board, cells, HitUnits(r.targets))
    ensures forall i :: 0 <= i < |r.targets| ==>
      Strike(r.targets[i].damage, r.targets[i].isCritical) == StrikeDamage(old(attacker.state), old(r.targets[i].unit.state), crit)
    ensures forall i :: 0 <= i < |r.targets| ==>
      r.targets[i].unit.state == Struck(old(r.targets[i].unit.state), r.targets[i].damage)
    ensures attacker.state == old(attacker.state).(attacksRemaining := old(attacker.state.attacksRemaining) - 1)
    ensures forall u: Unit :: u in BoardUnits(board) && u != attacker && u !in HitUnits(r.targets) ==> u.state == old(u.state)
  {
    ghost var before, view := attacker.state, View(board);
    var targets;
    targets, cells := TargetsWithCells(attacker, targetPos, board);
    assert IsTargetCells(before, targetPos, view, cells);
    var hits := StrikeAll(attacker.state, board, targets, crit);
    assert attacker.state == before;
    attacker.state := attacker.state.(attacksRemaining := attacker.state.attacksRemaining - 1);
    r := UnitAttack(attacker, hits);
    assert HitUnits(hits) == targets;
  }

  /** The loop of executeAttack: strikes each target in turn, leaving every other object alone. */
  method StrikeAll(attacker: Character, board: Grid<Unit>, targets: seq<Unit>, crit: bool) returns (hits: seq<UnitHit>)
    requires IsGrid(board)
    requires forall i :: 0 <= i < |targets| ==> targets[i] in BoardUnits(board)
    requires forall i, j :: 0 <= i < j < |targets| ==> targets[i] != targets[j]
    modifies BoardUnits(board)
    ensures |hits| == |targets|
    ensures forall i :: 0 <= i < |targets| ==> hits[i].unit == targets[i]
    ensures forall i :: 0 <= i < |targets| ==>
      Strike(hits[i].damage, hits[i].isCritical) == StrikeDamage(attacker, old(targets[i].state), crit)
    ensures forall i :: 0 <= i < |targets| ==> targets[i].state == Struck(old(targets[i].state), hits[i].damage)
    ensures forall u: Unit :: u in BoardUnits(board) && u !in targets ==> u.state == old(u.state)
  {
    hits := [];
    var k := 0;
    while k < |targets|
      invariant 0 <= k <= |targets| && |hits| == k
      invariant forall i :: 0 <= i < k ==> hits[i].unit == targets[i]
      invariant forall i :: 0 <= i < k ==>
        Strike(hits[i].damage, hits[i].isCritical) == StrikeDamage(attacker, old(targets[i].state), crit)
      invariant forall i :: 0 <= i < k ==> targets[i].state == Struck(old(targets[i].state), hits[i].damage)
      invariant forall i :: k <= i < |targets| ==> targets[i].state == old(targets[i].state)
      invariant forall u: Unit :: u in BoardUnits(board) && u !in targets ==> u.state == old(u.state)
    {
      var target := targets[k];
      var strike := StrikeDamage(attacker, target.state, crit);
      target.state := Struck(target.state, strike.damage);
      hits := hits + [UnitHit(target, strike.damage, strike.isCritical)];
      k := k + 1;
    }
  }
}
