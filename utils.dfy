/**
 * lib/game/utils.ts: damage and range rules used by the state-passing engine,
 * target selection, the initial scattering of special tiles, the fixed
 * starting roster, and the initiative order.
 */
module Utils {
  import opened Wrappers
  import opened Geometry
  import opened Constants
  import opened Types
  import opened Characters

  /**
   * calculateDamage: the scaled base damage rounded up, plus the attacker's damage boost.
   * Stated as the ceiling it is: the smallest whole number at least base * multiplier.
   */
  function CalculateDamage(attacker: CharacterType, defender: CharacterType, damageBoost: int): (d: int)
    ensures 10 * (d - damageBoost) >= BaseDamage(attacker) * Multiplier(attacker, defender)
    ensures 10 * (d - damageBoost) < BaseDamage(attacker) * Multiplier(attacker, defender) + 10
  {
    TriangleDamage(attacker, defender) + damageBoost
  }

  /** The worked example: a warrior hitting a thief without boost deals ceil(7.5) = 8; warrior against warrior deals 5. */
  lemma CalculateDamageExamples()
    ensures CalculateDamage(Warrior, Thief, 0) == 8
    ensures CalculateDamage(Warrior, Warrior, 0) == 5
    ensures CalculateDamage(Thief, Warrior, 0) == 5
  {
  }

  /** canAttack: within one cell in melee, within four otherwise. */
  predicate CanAttack(attacker: Character, target: Character, isMelee: bool)
  {
    Distance(attacker.position, target.position) <= (if isMelee then 1 else 4)
  }

  lemma CanAttackMeans(attacker: Character, target: Character, isMelee: bool)
    ensures isMelee ==> (CanAttack(attacker, target, isMelee) <==> Distance(attacker.position, target.position) <= 1)
    ensures !isMelee ==> (CanAttack(attacker, target, isMelee) <==> Distance(attacker.position, target.position) <= 4)
    ensures CanAttack(attacker, target, true) ==> CanAttack(attacker, target, false)
  {
  }

  /**
   * The index that a stable sort by distance from `from` puts first: a
   * candidate at minimal distance, the earliest one among ties.
   */
  function ClosestIndex(cands: seq<Character>, from: Position): (k: nat)
    requires |cands| > 0
    ensures k < |cands|
    ensures forall j :: 0 <= j < |cands| ==> Distance(from, cands[k].position) <= Distance(from, cands[j].position)
    ensures forall j :: 0 <= j < k ==> Distance(from, cands[j].position) > Distance(from, cands[k].position)
  {
    if |cands| == 1 then 0
    else
      var k := ClosestIndex(cands[1..], from) + 1;
      if Distance(from, cands[0].position) <= Distance(from, cands[k].position) then 0 else k
  }

  /**
   * getAttackTargets: in area mode every other character within range, allies
   * included; otherwise the single closest character of the other team within
   * range (the first one of the list among equally close ones), or none.
   */
  function GetAttackTargets(attacker: Character, allCharacters: seq<Character>, attackRange: int, isAreaAttack: bool): (r: seq<Character>)
    ensures isAreaAttack ==>
              forall c :: c in r <==> c in allCharacters && c.id != attacker.id && Distance(attacker.position, c.position) <= attackRange
    ensures !isAreaAttack ==> |r| <= 1
    ensures !isAreaAttack ==>
              (r == [] <==> forall c :: c in allCharacters && c.team != attacker.team ==> Distance(attacker.position, c.position) > attackRange)
    ensures !isAreaAttack && r != [] ==>
              && r[0] in allCharacters && r[0].team != attacker.team
              && Distance(attacker.position, r[0].position) <= attackRange
              && forall c :: c in allCharacters && c.team != attacker.team && Distance(attacker.position, c.position) <= attackRange ==>
                   Distance(attacker.position, r[0].position) <= Distance(attacker.position, c.position)
    ensures !isAreaAttack && r != [] ==>
              exists i :: 0 <= i < |allCharacters| && allCharacters[i] == r[0] &&
                forall j :: 0 <= j < i && allCharacters[j].team != attacker.team && Distance(attacker.position, allCharacters[j].position) <= attackRange ==>
                  Distance(attacker.position, allCharacters[j].position) > Distance(attacker.position, r[0].position)
  {
    if isAreaAttack then
      Filter(allCharacters, (c: Character) => c.id != attacker.id && Distance(attacker.position, c.position) <= attackRange)
    else
      var targets := OpponentsInRange(attacker, allCharacters, attackRange);
      if |targets| == 0 then []
      else
        assert targets[0] in targets;
        ClosestIsFirstOfTies(attacker, allCharacters, attackRange);
        [targets[ClosestIndex(targets, attacker.position)]]
  }

  /** The characters of the other team within range, in list order. */
  function OpponentsInRange(attacker: Character, allCharacters: seq<Character>, attackRange: int): (r: seq<Character>)
    ensures forall c :: c in r <==> c in allCharacters && c.team != attacker.team && Distance(attacker.position, c.position) <= attackRange
  {
    Filter(allCharacters, (c: Character) => c.team != attacker.team && Distance(attacker.position, c.position) <= attackRange)
  }

  /**
   * The stable sort's first element is, in the original list, the first
   * opponent in range at its distance: every earlier opponent in range is
   * strictly farther.
   */
  lemma ClosestIsFirstOfTies(attacker: Character, allCharacters: seq<Character>, attackRange: int)
    requires OpponentsInRange(attacker, allCharacters, attackRange) != []
    ensures var targets := OpponentsInRange(attacker, allCharacters, attackRange);
      var best := targets[ClosestIndex(targets, attacker.position)];
      exists i :: 0 <= i < |allCharacters| && allCharacters[i] == best &&
        forall j :: 0 <= j < i && allCharacters[j].team != attacker.team && Distance(attacker.position, allCharacters[j].position) <= attackRange ==>
          Distance(attacker.position, allCharacters[j].position) > Distance(attacker.position, best.position)
  {
    var p := (c: Character) => c.team != attacker.team && Distance(attacker.position, c.position) <= attackRange;
    var targets := OpponentsInRange(attacker, allCharacters, attackRange);
    var k := ClosestIndex(targets, attacker.position);
    var i := FilterOrigin(allCharacters, p, k);
    forall j | 0 <= j < i && allCharacters[j].team != attacker.team && Distance(attacker.position, allCharacters[j].position) <= attackRange
      ensures Distance(attacker.position, allCharacters[j].position) > Distance(attacker.position, targets[k].position)
    {
      assert p(allCharacters[j]);
      var m :| 0 <= m < k && targets[m] == allCharacters[j];
    }
  }

  /** In area mode, one more character in the list is struck last exactly when it is another character within range. */
  lemma AreaTargetsSnoc(attacker: Character, init: seq<Character>, last: Character, attackRange: int)
    ensures GetAttackTargets(attacker, init + [last], attackRange, true) ==
      GetAttackTargets(attacker, init, attackRange, true) +
      (if last.id != attacker.id && Distance(attacker.position, last.position) <= attackRange then [last] else [])
  {
    FilterSnoc(init, last, (c: Character) => c.id != attacker.id && Distance(attacker.position, c.position) <= attackRange);
  }

  /** In area mode every other character within range is struck once per occurrence in the list. */
  lemma AreaTargetsCount(attacker: Character, allCharacters: seq<Character>, attackRange: int, c: Character)
    ensures multiset(GetAttackTargets(attacker, allCharacters, attackRange, true))[c] ==
      if c.id != attacker.id && Distance(attacker.position, c.position) <= attackRange then multiset(allCharacters)[c] else 0
  {
    FilterCount(allCharacters, (x: Character) => x.id != attacker.id && Distance(attacker.position, x.position) <= attackRange, c);
  }

  // ---------------------------------------------------------------------
  // Special tiles

  /** A generated tile before it is marked unused: its cell and kind. */
  datatype PlacedTile = PlacedTile(position: Position, kind: TileKind)

  /** The six starting cells that no tile may take. */
  const STARTING_CELLS: set<Position> :=
    {Position(2, 2), Position(3, 2), Position(2, 3), Position(13, 13), Position(12, 13), Position(13, 12)}

  function TilePositions(tiles: seq<PlacedTile>): set<Position>
  {
    set t | t in tiles :: t.position
  }

  predicate DistinctCells(tiles: seq<PlacedTile>)
  {
    forall i, j :: 0 <= i < j < |tiles| ==> tiles[i].position != tiles[j].position
  }

  lemma DistinctCellsCard(tiles: seq<PlacedTile>)
    requires DistinctCells(tiles)
    ensures |TilePositions(tiles)| == |tiles|
  {
    if tiles != [] {
      var last := tiles[|tiles| - 1];
      var init := tiles[..|tiles| - 1];
      DistinctCellsCard(init);
      assert TilePositions(tiles) == TilePositions(init) + {last.position};
      assert last.position !in TilePositions(init);
    }
  }

  /** How many tiles of kind `k` a list holds. */
  function CountKind(tiles: seq<PlacedTile>, k: TileKind): nat
  {
    if tiles == [] then 0
    else CountKind(tiles[..|tiles| - 1], k) + (if tiles[|tiles| - 1].kind == k then 1 else 0)
  }

  /**
   * generateSpecialTiles: for each of the seven base kinds in turn, seven tiles,
   * each on a random cell that is neither taken by an earlier tile nor a
   * starting cell. The retry loop on random cells is the choice of any such
   * cell (one always exists: at most 55 of the 256 cells are excluded).
   */
  method GenerateSpecialTiles() returns (tiles: seq<PlacedTile>)
    ensures |tiles| == |BASE_KINDS| * TILES_PER_BASE_KIND
    ensures forall k :: 0 <= k < |tiles| ==> tiles[k].kind == BASE_KINDS[k / TILES_PER_BASE_KIND]
    ensures forall k :: 0 <= k < |BASE_KINDS| ==> CountKind(tiles, BASE_KINDS[k]) == TILES_PER_BASE_KIND
    ensures forall t :: t in tiles ==> IsValidPosition(t.position) && t.position !in STARTING_CELLS
    ensures DistinctCells(tiles)
  {
    tiles := [];
    var usedPositions: set<Position> := {};
    var typeIndex := 0;
    while typeIndex < |BASE_KINDS|
      invariant 0 <= typeIndex <= |BASE_KINDS|
      invariant |tiles| == typeIndex * TILES_PER_BASE_KIND
      invariant forall k :: 0 <= k < |tiles| ==> tiles[k].kind == BASE_KINDS[k / TILES_PER_BASE_KIND]
      invariant forall t :: t in tiles ==> IsValidPosition(t.position) && t.position !in STARTING_CELLS
      invariant DistinctCells(tiles)
      invariant usedPositions == TilePositions(tiles)
    {
      var i := 0;
      while i < TILES_PER_BASE_KIND
        invariant 0 <= i <= TILES_PER_BASE_KIND
        invariant |tiles| == typeIndex * TILES_PER_BASE_KIND + i
        invariant forall k :: 0 <= k < |tiles| ==> tiles[k].kind == BASE_KINDS[k / TILES_PER_BASE_KIND]
        invariant forall t :: t in tiles ==> IsValidPosition(t.position) && t.position !in STARTING_CELLS
        invariant DistinctCells(tiles)
        invariant usedPositions == TilePositions(tiles)
      {
        DistinctCellsCard(tiles);
        var position := PickFreeCell(usedPositions);
        var tile := PlacedTile(position, BASE_KINDS[typeIndex]);
        BlocksExtend(tiles, tile, typeIndex, i);
        usedPositions := usedPositions + {position};
        tiles := tiles + [tile];
        i := i + 1;
      }
      typeIndex := typeIndex + 1;
    }
    forall k | 0 <= k < |BASE_KINDS|
      ensures CountKind(tiles, BASE_KINDS[k]) == TILES_PER_BASE_KIND
    {
      BlockCount(tiles, k, |tiles|);
      assert tiles[..|tiles|] == tiles;
      assert (k + 1) * TILES_PER_BASE_KIND <= |tiles|;
    }
  }

  /** Any cell that is on the board, not in `used` and not a starting cell. */
  method PickFreeCell(used: set<Position>) returns (p: Position)
    requires |used| < 250
    ensures IsValidPosition(p) && p !in used && p !in STARTING_CELLS
  {
    assert |STARTING_CELLS| <= 6;
    assert |used + STARTING_CELLS| <= |used| + |STARTING_CELLS|;
    FreeCellExists(used + STARTING_CELLS);
    p :| IsValidPosition(p) && p !in used + STARTING_CELLS;
  }

  /** Appending a tile of block `b` at offset `i` within it keeps the block layout. */
  lemma BlocksExtend(tiles: seq<PlacedTile>, t: PlacedTile, b: nat, i: nat)
    requires |tiles| == b * TILES_PER_BASE_KIND + i && i < TILES_PER_BASE_KIND
    requires b < |BASE_KINDS| && t.kind == BASE_KINDS[b]
    requires forall k :: 0 <= k < |tiles| ==> tiles[k].kind == BASE_KINDS[k / TILES_PER_BASE_KIND]
    ensures forall k :: 0 <= k < |tiles + [t]| ==> (tiles + [t])[k].kind == BASE_KINDS[k / TILES_PER_BASE_KIND]
  {
    assert |tiles| / TILES_PER_BASE_KIND == b;
  }

  /** In a list laid out in blocks of seven per base kind, the kind of block `b` is counted seven times per complete block. */
  lemma {:induction false} BlockCount(tiles: seq<PlacedTile>, b: nat, n: nat)
    requires b < |BASE_KINDS| && n <= |tiles| == |BASE_KINDS| * TILES_PER_BASE_KIND
    requires forall k :: 0 <= k < |tiles| ==> tiles[k].kind == BASE_KINDS[k / TILES_PER_BASE_KIND]
    ensures CountKind(tiles[..n], BASE_KINDS[b]) ==
              if n <= b * TILES_PER_BASE_KIND then 0
              else if n >= (b + 1) * TILES_PER_BASE_KIND then TILES_PER_BASE_KIND
              else n - b * TILES_PER_BASE_KIND
  {
    if n > 0 {
      BlockCount(tiles, b, n - 1);
      assert tiles[..n][..n - 1] == tiles[..n - 1];
      var u := (n - 1) / TILES_PER_BASE_KIND;
      assert tiles[n - 1].kind == BASE_KINDS[u];
      assert BASE_KINDS[u] == BASE_KINDS[b] <==> u == b;
    } else {
      assert tiles[..0] == [];
    }
    if n == |tiles| {
      assert tiles[..n] == tiles;
    }
  }

  // ---------------------------------------------------------------------
  // Starting roster

  /** The fixed roster's ids: `player-warrior`, `enemy-thief`, ... */
  function RosterId(team: Team, kind: CharacterType): string
  {
    TeamName(team) + "-" + KindName(kind)
  }

  lemma RosterIdsDistinct(t1: Team, k1: CharacterType, t2: Team, k2: CharacterType)
    requires (t1, k1) != (t2, k2)
    ensures RosterId(t1, k1) != RosterId(t2, k2)
  {
    var a, b := RosterId(t1, k1), RosterId(t2, k2);
    if t1 != t2 {
      assert a[0] != b[0];
    } else {
      var n := |TeamName(t1)| + 1;
      assert a[n] == KindName(k1)[0];
      assert b[n] == KindName(k2)[0];
    }
  }

  function RosterMember(kind: CharacterType, team: Team, position: Position, health: int, movement: int,
                        attacks: int, initiative: int, armor: int, regeneration: int): Character
  {
    Character(RosterId(team, kind), kind, team, position, health, health, movement, movement, true,
              0, 0, attacks, initiative, armor, 0, regeneration)
  }

  /**
   * initializeCharacters: the fixed three-a-side roster (warrior, mage, thief),
   * players in the top-left corner and enemies in the bottom-right corner.
   */
  function InitializeCharacters(): (r: (seq<Character>, seq<Character>))
    ensures |r.0| == 3 && |r.1| == 3
    ensures forall c :: c in r.0 ==> c.team == Player
    ensures forall c :: c in r.1 ==> c.team == Enemy
  {
    ([RosterMember(Warrior, Player, Position(2, 2), 15, 4, 2, 10, 1, 0),
      RosterMember(Mage, Player, Position(3, 2), 10, 4, 1, 11, 0, 1),
      RosterMember(Thief, Player, Position(2, 3), 12, 5, 1, 8, 0, 0)],
     [RosterMember(Warrior, Enemy, Position(13, 13), 15, 4, 2, 10, 1, 0),
      RosterMember(Mage, Enemy, Position(12, 13), 10, 4, 1, 11, 0, 1),
      RosterMember(Thief, Enemy, Position(13, 12), 12, 5, 1, 8, 0, 0)])
  }

  /**
   * The starting roster: six characters with distinct ids on distinct starting
   * cells, each at full health and full movement, satisfying the character
   * invariant; warriors have one armor and two attacks, mages one
   * regeneration.
   */
  lemma InitialRosterFacts()
    ensures |Roster()| == 6
    ensures UniqueIds(Roster())
    ensures forall i, j :: 0 <= i < j < |Roster()| ==> Roster()[i].position != Roster()[j].position
    ensures forall c :: c in Roster() ==>
              && c.health == c.maxHealth && c.movement == c.maxMovement
              && c.isAlive && CharacterOk(c) && c.position in STARTING_CELLS && IsValidPosition(c.position)
              && c.attacksRemaining == AttacksPerTurn(c.kind)
              && c.armor == (if c.kind == Warrior then 1 else 0)
              && c.regeneration == (if c.kind == Mage then 1 else 0)
  {
    var all := Roster();
    RosterSlotsApart();
    forall i, j | 0 <= i < j < 6
      ensures all[i].id != all[j].id
    {
      RosterIdsDistinct(all[i].team, all[i].kind, all[j].team, all[j].kind);
    }
    forall c | c in all
      ensures && c.health == c.maxHealth && c.movement == c.maxMovement
              && c.isAlive && CharacterOk(c) && c.position in STARTING_CELLS && IsValidPosition(c.position)
              && c.attacksRemaining == AttacksPerTurn(c.kind)
              && c.armor == (if c.kind == Warrior then 1 else 0)
              && c.regeneration == (if c.kind == Mage then 1 else 0)
    {
      RosterFollowsClassTable(c);
      RosterMemberPlaced(c);
    }
  }

  /** No two members of the roster share a side and class, or a cell. */
  lemma RosterSlotsApart()
    ensures |Roster()| == 6
    ensures forall i, j :: 0 <= i < j < 6 ==>
      (Roster()[i].team, Roster()[i].kind) != (Roster()[j].team, Roster()[j].kind) && Roster()[i].position != Roster()[j].position
  {
    var all := Roster();
    var (p, e) := InitializeCharacters();
    assert all == p + e;
    assert forall i :: 0 <= i < 3 ==> all[i] == p[i] && all[i + 3] == e[i];
  }

  lemma RosterMemberPlaced(c: Character)
    requires c in Roster()
    ensures c.position in STARTING_CELLS && IsValidPosition(c.position)
    ensures c.attacksRemaining == AttacksPerTurn(c.kind) && CharacterOk(c)
  {
  }

  /**
   * The fixed roster is what createCharacter builds for the same class, team,
   * cell and id, except that both warriors start with movement 4 where the
   * class table says 3.
   */
  lemma RosterMatchesCreateCharacter(now: string)
    ensures forall c :: c in Roster() ==>
              c == CreateCharacter(c.kind, c.team, c.position, Some(c.id), now).(movement := c.movement, maxMovement := c.maxMovement)
    ensures forall c :: c in Roster() ==>
              c.movement == c.maxMovement == if c.kind == Warrior then 4 else CharacterStats(c.kind).movement
    ensures CharacterStats(Warrior).movement == 3
  {
    forall c | c in Roster()
      ensures c == CreateCharacter(c.kind, c.team, c.position, Some(c.id), now).(movement := c.movement, maxMovement := c.maxMovement)
      ensures c.movement == c.maxMovement == if c.kind == Warrior then 4 else CharacterStats(c.kind).movement
    {
      RosterFollowsClassTable(c);
      ClassRecordIsCreated(c, now);
    }
  }

  /** Every field of `c` but its movement is what the class table and the roster's id scheme give. */
  predicate FromClassTable(c: Character)
  {
    var stats := CharacterStats(c.kind);
    && c.id == RosterId(c.team, c.kind)
    && c.health == c.maxHealth == stats.health && c.movement == c.maxMovement
    && c.isAlive && c.damageBoost == 0 && c.movementBoost == 0 && c.shield == 0
    && c.attacksRemaining == stats.attacksPerTurn && c.initiative == stats.initiative
    && c.armor == (if c.kind == Warrior then 1 else 0)
    && c.regeneration == (if c.kind == Mage then 1 else 0)
  }

  lemma RosterFollowsClassTable(c: Character)
    requires c in Roster()
    ensures FromClassTable(c)
    ensures c.movement == if c.kind == Warrior then 4 else CharacterStats(c.kind).movement
  {
  }

  lemma ClassRecordIsCreated(c: Character, now: string)
    requires FromClassTable(c)
    ensures c == CreateCharacter(c.kind, c.team, c.position, Some(c.id), now).(movement := c.movement, maxMovement := c.maxMovement)
  {
    assert c.id != "" by { assert c.id[0] == TeamName(c.team)[0]; }
  }

  /** Both teams of the starting roster, players first. */
  function Roster(): seq<Character>
  {
    InitializeCharacters().0 + InitializeCharacters().1
  }

  // ---------------------------------------------------------------------
  // Initiative order

  function TeamRank(t: Team): int
  {
    if t == Player then 0 else 1
  }

  /**
   * The comparator of generateTurnOrder as a total preorder: lower initiative
   * first, then player before enemy, then, inside one team, the random
   * tie-break, given as the oracle `tie` (a smaller draw comes first).
   */
  predicate OrderedBefore(a: Character, b: Character, tie: string -> int)
  {
    || a.initiative < b.initiative
    || (a.initiative == b.initiative && TeamRank(a.team) < TeamRank(b.team))
    || (a.initiative == b.initiative && a.team == b.team && tie(a.id) <= tie(b.id))
  }

  lemma OrderedTotal(a: Character, b: Character, tie: string -> int)
    ensures OrderedBefore(a, b, tie) || OrderedBefore(b, a, tie)
  {
  }

  lemma OrderedTransitive(a: Character, b: Character, c: Character, tie: string -> int)
    requires OrderedBefore(a, b, tie) && OrderedBefore(b, c, tie)
    ensures OrderedBefore(a, c, tie)
  {
  }

  predicate SortedForTurns(s: seq<Character>, tie: string -> int)
  {
    forall i, j :: 0 <= i < j < |s| ==> OrderedBefore(s[i], s[j], tie)
  }

  /** The turn-order sort of the living characters, in place: insertion by adjacent swaps. */
  method SortForTurns(a: array<Character>, tie: string -> int)
    modifies a
    ensures SortedForTurns(a[..], tie)
    ensures multiset(a[..]) == multiset(old(a[..]))
  {
    if a.Length == 0 {
      return;
    }
    var i := 1;
    while i < a.Length
      invariant 1 <= i <= a.Length
      invariant SortedForTurns(a[..i], tie)
      invariant multiset(a[..]) == multiset(old(a[..]))
    {
      SinkLast(a, i, tie);
      i := i + 1;
    }
    assert a[..] == a[..a.Length];
  }

  /** Everything before `j` and after it up to `i` is in order, except possibly around the element at `j`. */
  predicate SortedAround(s: seq<Character>, i: int, j: int, tie: string -> int)
    requires 0 <= j <= i < |s|
  {
    forall p, q :: 0 <= p < q <= i && q != j ==> OrderedBefore(s[p], s[q], tie)
  }

  /** One pass of the insertion: the element at `i` moves left past every element that must follow it. */
  method SinkLast(a: array<Character>, i: int, tie: string -> int)
    requires 1 <= i < a.Length
    requires SortedForTurns(a[..i], tie)
    modifies a
    ensures SortedForTurns(a[..i + 1], tie)
    ensures multiset(a[..]) == multiset(old(a[..]))
  {
    var j := i;
    assert SortedAround(a[..], i, j, tie) by {
      assert forall p :: 0 <= p < i ==> a[..i][p] == a[p];
    }
    while j > 0 && !OrderedBefore(a[j - 1], a[j], tie)
      invariant 0 <= j <= i
      invariant SortedAround(a[..], i, j, tie)
      invariant multiset(a[..]) == multiset(old(a[..]))
    {
      ghost var s := a[..];
      SwapKeepsSortedAround(s, i, j, tie);
      a[j - 1], a[j] := a[j], a[j - 1];
      assert a[..] == s[j - 1 := s[j]][j := s[j - 1]];
      j := j - 1;
    }
    SortedAroundDone(a[..], i, j, tie);
  }

  /** Swapping the element at `j` with a left neighbour that must follow it keeps the order around it, one place further left. */
  lemma SwapKeepsSortedAround(s: seq<Character>, i: int, j: int, tie: string -> int)
    requires 0 < j <= i < |s|
    requires SortedAround(s, i, j, tie)
    requires !OrderedBefore(s[j - 1], s[j], tie)
    ensures SortedAround(s[j - 1 := s[j]][j := s[j - 1]], i, j - 1, tie)
    ensures multiset(s[j - 1 := s[j]][j := s[j - 1]]) == multiset(s)
  {
    OrderedTotal(s[j - 1], s[j], tie);
    var t := s[j - 1 := s[j]][j := s[j - 1]];
    forall p, q | 0 <= p < q <= i && q != j - 1
      ensures OrderedBefore(t[p], t[q], tie)
    {
      if p == j - 1 && q > j {
        OrderedTransitive(s[j], s[j - 1], s[q], tie);
      }
    }
  }

  /** When the element at `j` follows its left neighbour, the stretch up to `i` is sorted. */
  lemma SortedAroundDone(s: seq<Character>, i: int, j: int, tie: string -> int)
    requires 0 <= j <= i < |s|
    requires SortedAround(s, i, j, tie)
    requires j > 0 ==> OrderedBefore(s[j - 1], s[j], tie)
    ensures SortedForTurns(s[..i + 1], tie)
  {
    forall p, q | 0 <= p < q <= i
      ensures OrderedBefore(s[p], s[q], tie)
    {
      if q == j && p < j - 1 {
        OrderedTransitive(s[p], s[j - 1], s[j], tie);
      }
    }
  }

  /**
   * `order` is the id list of an initiative-sorted arrangement of exactly the
   * living characters of both teams.
   */
  ghost predicate IsTurnOrderOf(order: seq<string>, playerTeam: seq<Character>, enemyTeam: seq<Character>, tie: string -> int)
  {
    exists s :: SortedForTurns(s, tie) && multiset(s) == multiset(AliveOnly(playerTeam + enemyTeam)) && order == Ids(s)
  }

  /** generateTurnOrder: keep the living characters, sort them with the comparator, keep their ids. */
  method GenerateTurnOrder(playerTeam: seq<Character>, enemyTeam: seq<Character>, tie: string -> int) returns (order: seq<string>)
    ensures |order| == |AliveOnly(playerTeam + enemyTeam)|
    ensures IsTurnOrderOf(order, playerTeam, enemyTeam, tie)
  {
    var alive := AliveOnly(playerTeam + enemyTeam);
    var a := new Character[|alive|](k requires 0 <= k < |alive| => alive[k]);
    assert a[..] == alive;
    SortForTurns(a, tie);
    order := Ids(a[..]);
    assert multiset(a[..]) == multiset(alive);
    assert |a[..]| == |alive| by {
      assert |multiset(a[..])| == |multiset(alive)|;
    }
  }

  lemma PermutationMembers(s: seq<Character>, t: seq<Character>)
    requires multiset(s) == multiset(t)
    ensures forall c :: c in s <==> c in t
  {
    forall c ensures c in s <==> c in t {
      assert c in s <==> c in multiset(s);
      assert c in t <==> c in multiset(t);
    }
  }

  /** The ids of an arrangement of living team members are exactly the living members' ids. */
  lemma OrderIdsAreAliveIds(s: seq<Character>, all: seq<Character>)
    requires multiset(s) == multiset(AliveOnly(all))
    ensures forall id :: id in Ids(s) <==> exists c :: c in all && c.isAlive && c.id == id
  {
    PermutationMembers(s, AliveOnly(all));
    forall id | id in Ids(s)
      ensures exists c :: c in all && c.isAlive && c.id == id
    {
      var k :| 0 <= k < |s| && Ids(s)[k] == id;
      assert s[k] in s;
    }
    forall id | exists c :: c in all && c.isAlive && c.id == id
      ensures id in Ids(s)
    {
      var c :| c in all && c.isAlive && c.id == id;
      assert c in s;
      var k :| 0 <= k < |s| && s[k] == c;
      assert Ids(s)[k] == id;
    }
  }

  /** A value at two positions of a sequence is counted at least twice. */
  lemma CountsRepeat(s: seq<Character>, i: int, j: int)
    requires 0 <= i < j < |s|
    ensures s[i] == s[j] ==> multiset(s)[s[j]] >= 2
  {
    assert s == s[..j] + [s[j]] + s[j + 1..];
    assert s[i] in s[..j];
  }

  /** Two positions of an arrangement of members of a unique-id list carry different ids. */
  lemma ArrangementIdsDistinct(s: seq<Character>, all: seq<Character>, i: int, j: int)
    requires UniqueIds(all) && multiset(s) <= multiset(all)
    requires 0 <= i < j < |s|
    ensures s[i].id != s[j].id
  {
    assert s[i] in multiset(s) && s[j] in multiset(s);
    UniqueOccursOnce(all, s[j]);
    CountsRepeat(s, i, j);
    assert s[i] != s[j];
    assert s[i] in all && s[j] in all;
    var p :| 0 <= p < |all| && all[p] == s[i];
    var q :| 0 <= q < |all| && all[q] == s[j];
    if p < q {
      assert all[p].id != all[q].id;
    } else {
      assert all[q].id != all[p].id;
    }
  }

  /** Non-decreasing initiative, and at equal initiative no enemy before a player. */
  predicate InitiativeSorted(s: seq<Character>)
  {
    forall i, j :: 0 <= i < j < |s| ==>
      && s[i].initiative <= s[j].initiative
      && (s[i].initiative == s[j].initiative && s[i].team != s[j].team ==> s[i].team == Player)
  }

  lemma SortedIsInitiativeSorted(s: seq<Character>, tie: string -> int)
    requires SortedForTurns(s, tie)
    ensures InitiativeSorted(s)
  {
  }

  /**
   * What a turn order promises: an id is in it iff it belongs to a living
   * character; initiative never decreases along it, and at equal initiative
   * no enemy comes before a player; with unique ids no id occurs twice.
   */
  lemma TurnOrderFacts(order: seq<string>, playerTeam: seq<Character>, enemyTeam: seq<Character>, tie: string -> int)
    requires IsTurnOrderOf(order, playerTeam, enemyTeam, tie)
    ensures forall id :: id in order <==> exists c :: c in playerTeam + enemyTeam && c.isAlive && c.id == id
    ensures exists s: seq<Character> :: Ids(s) == order && (forall c :: c in s ==> c in playerTeam + enemyTeam && c.isAlive) && InitiativeSorted(s)
    ensures UniqueIds(playerTeam + enemyTeam) ==> forall i, j :: 0 <= i < j < |order| ==> order[i] != order[j]
  {
    var all := playerTeam + enemyTeam;
    var s :| SortedForTurns(s, tie) && multiset(s) == multiset(AliveOnly(all)) && order == Ids(s);
    OrderIdsAreAliveIds(s, all);
    ArrangementIsSortedLiving(s, all, tie);
    if UniqueIds(all) {
      ArrangementIdsAllDistinct(s, all);
    }
  }

  lemma ArrangementIsSortedLiving(s: seq<Character>, all: seq<Character>, tie: string -> int)
    requires SortedForTurns(s, tie) && multiset(s) == multiset(AliveOnly(all))
    ensures (forall c :: c in s ==> c in all && c.isAlive) && InitiativeSorted(s)
  {
    PermutationMembers(s, AliveOnly(all));
    SortedIsInitiativeSorted(s, tie);
  }

  lemma ArrangementIdsAllDistinct(s: seq<Character>, all: seq<Character>)
    requires multiset(s) == multiset(AliveOnly(all)) && UniqueIds(all)
    ensures forall i, j :: 0 <= i < j < |Ids(s)| ==> Ids(s)[i] != Ids(s)[j]
  {
    forall i, j | 0 <= i < j < |Ids(s)|
      ensures Ids(s)[i] != Ids(s)[j]
    {
      ArrangementIdsDistinct(s, all, i, j);
    }
  }
}
