/**
 * Class tables, attack ranges, base damage, tile effects and the damage
 * triangle of lib/game/constants.ts. Multipliers are kept in tenths
 * (1.5 -> 15, 1.0 -> 10, 0.7 -> 7) so that rounding the scaled damage up is exact
 * integer arithmetic.
 */
module Constants {
  import opened Wrappers

  datatype CharacterType = Warrior | Mage | Thief | Royal

  datatype Team = Player | Enemy

  datatype ClassStats = ClassStats(health: int, movement: int, attacksPerTurn: int, initiative: int)

  /** CHARACTER_STATS */
  function CharacterStats(t: CharacterType): ClassStats
  {
    match t
    case Warrior => ClassStats(15, 3, 2, 10)
    case Mage => ClassStats(10, 4, 1, 11)
    case Thief => ClassStats(12, 5, 1, 8)
    case Royal => ClassStats(13, 4, 1, 9)
  }

  /** SPECIAL_TILES_COUNT: seven tiles of every base kind. */
  const TILES_PER_BASE_KIND: nat := 7

  // SPECIAL_TILE_EFFECTS
  const HEAL_MAX_HP: int := 3
  const HEAL_AMOUNT: int := 2
  const DAMAGE_BOOST: int := 1
  const MOVEMENT_BOOST: int := 1
  const INITIATIVE_BOOST: int := 1
  const ARMOR: int := 1
  const SHIELD: int := 4
  const REGENERATION: int := 1

  /**
   * ATTACK_RANGES: every class reaches at least the adjacent cells and at most
   * four cells; exactly the warrior and the royal are limited to adjacent cells.
   */
  function AttackRange(t: CharacterType): (r: nat)
    ensures 1 <= r <= 4
    ensures r == 1 <==> t == Warrior || t == Royal
  {
    match t
    case Warrior => 1
    case Mage => 3
    case Thief => 4
    case Royal => 1
  }

  /** BASE_DAMAGE */
  function BaseDamage(t: CharacterType): nat
  {
    match t
    case Warrior => 5
    case Mage => 5
    case Thief => 6
    case Royal => 7
  }

  // DAMAGE_MULTIPLIERS, in tenths
  const ADVANTAGE: nat := 15
  const NEUTRAL: nat := 10
  const DISADVANTAGE: nat := 7

  /** getMultiplier: the if-chain of the source, in the same order. */
  function Multiplier(attacker: CharacterType, defender: CharacterType): (m: nat)
    ensures m == ADVANTAGE || m == NEUTRAL || m == DISADVANTAGE
  {
    if attacker == Royal then
      (if defender == Royal then ADVANTAGE else NEUTRAL)
    else if defender == Royal then NEUTRAL
    else if attacker == defender then NEUTRAL
    else if attacker == Warrior && defender == Thief then ADVANTAGE
    else if attacker == Warrior && defender == Mage then DISADVANTAGE
    else if attacker == Thief && defender == Mage then ADVANTAGE
    else if attacker == Thief && defender == Warrior then DISADVANTAGE
    else if attacker == Mage && defender == Warrior then ADVANTAGE
    else if attacker == Mage && defender == Thief then DISADVANTAGE
    else NEUTRAL
  }

  /** The ceiling of `base * tenths / 10` for non-negative operands. */
  function CeilTenths(base: nat, tenths: nat): (r: nat)
    ensures 10 * r >= base * tenths
    ensures 10 * r < base * tenths + 10
  {
    (base * tenths + 9) / 10
  }

  /** The base damage of `a` scaled by the class multiplier against `d`, rounded up. */
  function TriangleDamage(attacker: CharacterType, defender: CharacterType): nat
  {
    CeilTenths(BaseDamage(attacker), Multiplier(attacker, defender))
  }

  datatype DamageRange = DamageRange(min: int, max: int)

  /** The legacy DAMAGE_RANGES table: rows and columns for warrior, mage and thief only. */
  function LegacyDamageRange(attacker: CharacterType, defender: CharacterType): Option<DamageRange>
  {
    match (attacker, defender)
    case (Warrior, Warrior) => Some(DamageRange(5, 5))
    case (Warrior, Mage) => Some(DamageRange(4, 4))
    case (Warrior, Thief) => Some(DamageRange(8, 8))
    case (Mage, Warrior) => Some(DamageRange(8, 8))
    case (Mage, Mage) => Some(DamageRange(5, 5))
    case (Mage, Thief) => Some(DamageRange(4, 4))
    case (Thief, Warrior) => Some(DamageRange(5, 5))
    case (Thief, Mage) => Some(DamageRange(9, 9))
    case (Thief, Thief) => Some(DamageRange(6, 6))
    case _ => None
  }

  /** ATTACKS_PER_TURN */
  function AttacksPerTurn(t: CharacterType): nat
  {
    match t
    case Warrior => 2
    case Mage => 1
    case Thief => 1
    case Royal => 1
  }

  /** A royal is strong against a royal only and neutral against everyone else. */
  lemma RoyalMultipliers(d: CharacterType)
    ensures Multiplier(Royal, d) == (if d == Royal then ADVANTAGE else NEUTRAL)
    ensures d != Royal ==> Multiplier(d, Royal) == NEUTRAL
    ensures Multiplier(d, d) == (if d == Royal then ADVANTAGE else NEUTRAL)
  {
  }

  /** The rock-paper-scissors triangle warrior > thief > mage > warrior. */
  lemma DamageTriangle()
    ensures Multiplier(Warrior, Thief) == ADVANTAGE && Multiplier(Thief, Warrior) == DISADVANTAGE
    ensures Multiplier(Thief, Mage) == ADVANTAGE && Multiplier(Mage, Thief) == DISADVANTAGE
    ensures Multiplier(Mage, Warrior) == ADVANTAGE && Multiplier(Warrior, Mage) == DISADVANTAGE
  {
  }

  /** Between two distinct non-royal classes, advantage one way is disadvantage the other way. */
  lemma AdvantageMirrorsDisadvantage(a: CharacterType, d: CharacterType)
    requires a != Royal && d != Royal && a != d
    ensures Multiplier(a, d) == ADVANTAGE <==> Multiplier(d, a) == DISADVANTAGE
    ensures Multiplier(a, d) != NEUTRAL
  {
  }

  /** The ceiling formula reproduces every entry of the legacy table, and the table covers exactly the non-royal pairs. */
  lemma LegacyTableAgrees(a: CharacterType, d: CharacterType)
    ensures LegacyDamageRange(a, d).Some? <==> a != Royal && d != Royal
    ensures LegacyDamageRange(a, d).Some? ==>
              LegacyDamageRange(a, d).value.min == TriangleDamage(a, d) == LegacyDamageRange(a, d).value.max
  {
  }

  /** ATTACKS_PER_TURN agrees with CHARACTER_STATS: two attacks for a warrior, one otherwise. */
  lemma AttacksPerTurnAgrees(t: CharacterType)
    ensures AttacksPerTurn(t) == CharacterStats(t).attacksPerTurn
    ensures AttacksPerTurn(t) == (if t == Warrior then 2 else 1)
  {
  }
}
