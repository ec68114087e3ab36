# Tactical combat core, modelled in Dafny

This project models the rules engine of a turn-based tactics game played on a
16×16 board. Each side has a warrior, a mage and a thief (royals exist in the
class tables). The player's team and the enemy's team take turns in initiative
order. Characters move by Manhattan distance and attack with class ranges and a
damage triangle: warrior beats thief, thief beats mage, mage beats warrior.
Special tiles on the board grant one-shot bonuses. Two enemy "AI"s pick moves,
and two in-memory score tables keep users, games and statistics.

The source carries two versions of the engine, and the model keeps both,
because they disagree in detail:

- **The value engine** (`lib/game/gameLogic.ts`, `lib/game/utils.ts`,
  `lib/ai/enemyAI.ts`, over the shapes of `lib/types/game.ts`).
  - Every operation returns a new `GameState`. The board is a grid of optional
    character ids (module `Types`).
  - Modules `GameLogic` (setup and movement), `GameAttack` (attacks),
    `EndTurn` (the turn lifecycle), `Utils` and `EnemyAI` model it.
  - A state invariant `StateOk` holds three things together:
    - the board names exactly the living characters at their positions
      (`BoardAgrees`);
    - each team holds only its own side (`TeamsTagged`);
    - every character's numbers are sane (`CharacterOk`).
  - `StateOk` is proved to hold after `initializeGame` and to be kept by
    `moveCharacter`, `performAttack` and `endTurn`.
- **The object engine** (`lib/game/board.ts`, `lib/game/combat.ts`,
  `lib/game/characters.ts`, `lib/game/ai.ts`, over the shapes of
  `lib/game/types.ts`).
  - Characters are objects shared between the team lists and the board cells,
    and the source changes them in place. They are modelled as `class Unit`,
    whose `state` field holds the character's current values.
  - Tiles whose `used` flag is set in place are `class Tile`.
  - `View` reads a board of units as a board of values, and `States` reads a
    list of units the same way.
- **The score tables** (`lib/db.ts`, `lib/db/stats.ts`) are classes
  (`Db.Database`, `Stats.StatsStore`) whose fields are the source's maps and
  counters. Their methods state the whole new state.

Chance and the clock are inputs:

- the thief's critical roll is a `crit: bool` parameter;
- random tile cells are a nondeterministic choice (`:|`) among the cells the
  source would accept;
- the random tie-break between same-team characters of equal initiative is a
  function `tie`;
- the shuffled star bonuses are a list `picks` of three distinct base kinds;
- `Date.now()` is a `now` parameter.

Damage multipliers 1.5, 1.0 and 0.7 are written in tenths (15, 10, 7), so
`Math.ceil(base * m)` is `CeilTenths(base, m)`.

Behaviours of the code that a reader might not expect, all modelled as
written:

- `performAttack` never reads its `isMelee` argument: a thief's melee flag
  comes from the distance to the target cell (`GameAttack.IsMeleeIgnored`).
  It also does not spend an attack, unlike `executeAttack`.
- In the value engine the crit doubles the damage after the permanent damage
  boost has been added. In `combat.ts` the boost is added after the doubling
  (`Combat.CriticalOrder`).
- The value engine's mage hits every living character but itself within
  distance 3 of the mage. The object engine's mage hits every occupant but
  itself within distance 4 of the clicked cell.
- `initializeCharacters` gives warriors movement 4, while the class table
  says 3 (`Utils.RosterMatchesCreateCharacter`).
- `endTurn` treats an empty `usedCharacterId` as "nobody acted". It writes the
  acting character's id back onto its cell even when that character is dead,
  so `StateOk` is kept only when the acting character is alive or absent
  (`EndTurn.UsedOk`).
- When everyone is dead at a rollover, the new order is empty and the index
  is 0. When both teams are wiped out by one attack, the enemy wins
  (`GameAttack.BothWipedOutEnemyWins`).
- `utils.ts` spawns 7 tiles of each of the 7 base kinds, avoiding the six
  starting cells. `board.ts` spawns 10 tiles of each of heal, damage boost and
  movement boost.
- At `lib/game/gameLogic.ts:498` a stray `});` closes an `if`. It is read as
  `}`.

## Model

| member | source | states |
|---|---|---|
| Geometry.Distance | lib/game/utils.ts:6-8 | the distance is a natural number, 0 exactly when the positions are equal, and at least each coordinate difference |
| Geometry.IsValidPosition | lib/game/utils.ts:10-12 | a predicate with no contract of its own: both coordinates lie in 0 to 15; CanMoveToMeans states it as the bounds test of a move |
| Geometry.DistanceSymmetric | lib/game/utils.ts:6-8 | the distance from p to q equals the distance from q to p |
| Geometry.DistanceTriangle | lib/game/utils.ts:6-8 | the Manhattan distance obeys the triangle inequality |
| Geometry.FreeCellExists | lib/game/board.ts:44-53 | with fewer than 256 cells taken, some board cell is free, so the random draw can succeed |
| Constants.AttackRange | lib/game/constants.ts:57-62 | every class reaches 1 to 4 cells, and exactly the warrior and the royal only the adjacent cells |
| Constants.Multiplier | lib/game/constants.ts:83-119 | every class pair yields advantage, neutral or disadvantage |
| Constants.CeilTenths | lib/game/utils.ts:30-31 | the result is the ceiling of base × multiplier (in tenths) |
| Constants.RoyalMultipliers | lib/game/constants.ts:87-98 | royal vs royal is advantage; royal vs others, others vs royal and same-class pairs are neutral |
| Constants.DamageTriangle | lib/game/constants.ts:100-116 | warrior > thief > mage > warrior at advantage, the reverse pairs at disadvantage |
| Constants.AdvantageMirrorsDisadvantage | lib/game/constants.ts:100-116 | for distinct non-royal classes, a has advantage over d iff d has disadvantage against a, and no such pair is neutral |
| Constants.LegacyTableAgrees | lib/game/constants.ts:122-138 | the legacy damage table exists exactly for non-royal pairs, and each of its entries equals the ceiled base × multiplier |
| Constants.AttacksPerTurnAgrees | lib/game/constants.ts:141-146 | the attacks-per-turn table agrees with the class table: 2 for warriors, 1 otherwise |
| Characters.CreateCharacter | lib/game/characters.ts:4-32 | a fresh character has full health and movement from its class, is alive, has no boosts or shield, has armor 1 iff warrior and regeneration 1 iff mage, and keeps a given non-empty id |
| Characters.CreatedCharacterOk | lib/game/characters.ts:4-32 | a created character satisfies the character invariant, is alive and has its class's attacks |
| Characters.DefaultIdsDistinct | lib/game/characters.ts:13 | default ids of different team/class pairs differ |
| Characters.ResetCharacterTurn | lib/game/characters.ts:34-41 | movement becomes max + boost, the boost is zeroed, attacks are 2 for warriors and 1 otherwise, nothing else changes |
| Characters.ResetKeepsCharacterOk | lib/game/characters.ts:34-41 | a reset keeps the character invariant and restores at least full movement |
| Characters.IsCharacterAlive | lib/game/characters.ts:43-45 | its meaning is stated by AliveFlagAgrees: it agrees with the alive flag of a sane character |
| Characters.AliveFlagAgrees | lib/game/characters.ts:43-45 | for a sane character, health > 0 agrees with its alive flag |
| Characters.CanMoveTo | lib/game/characters.ts:51-57 | its meaning is stated by CanMoveToMeans: within movement, on the board, onto an empty cell |
| Characters.CanMoveToMeans | lib/game/characters.ts:51-57 | a move is allowed iff it is within movement, on the board and onto an empty cell |
| Types.IndexOfId | lib/game/gameLogic.ts:55-57 | the index found is the first with that id, or -1 when none has it |
| Types.FindById | lib/game/gameLogic.ts:55-57 | the character found is a member with that id; none is found iff no member has it |
| Types.ReplaceById | lib/game/gameLogic.ts:82-93 | same length; exactly the members with that id are replaced |
| Types.AliveOnly | lib/game/utils.ts:233 | keeps exactly the living members, as a sub-multiset |
| Types.AliveOnlyCount | lib/game/utils.ts:233 | each living member is kept exactly as often as it occurs, no dead one at all |
| Types.AliveOnlyAppend | lib/game/utils.ts:233 | the living members of a concatenation are those of each part, in order |
| Types.Filter | lib/game/utils.ts:50-60 | keeps exactly the members satisfying the test, as a sub-multiset |
| Types.FilterCount | lib/game/utils.ts:50-60 | each member satisfying the test is kept exactly as often as it occurs, no other one at all |
| Types.FilterAppend | lib/game/utils.ts:50-60 | filtering a concatenation filters each part and keeps their order |
| Types.FilterSnoc | lib/game/utils.ts:50-60 | filtering one more element appends it exactly when it satisfies the test |
| Types.FilterOrigin | lib/game/utils.ts:50-60 | the k-th kept member sits at an index of the input before which every member satisfying the test is among the first k kept |
| Types.UniqueOccursOnce | lib/game/utils.ts:232-250 | with distinct ids no character occurs twice |
| Types.FindMember | lib/game/gameLogic.ts:55-57 | with distinct ids, looking up a member's id finds that member at its index |
| Utils.CalculateDamage | lib/game/utils.ts:19-34 | damage is the ceiling of base × multiplier plus the damage boost |
| Utils.CalculateDamageExamples | lib/game/utils.ts:19-34 | warrior vs thief deals 8, warrior vs warrior 5, thief vs warrior 5 |
| Utils.CanAttack | lib/game/utils.ts:36-40 | its meaning is stated by CanAttackMeans: reach 1 in melee, 4 otherwise |
| Utils.CanAttackMeans | lib/game/utils.ts:36-40 | melee reaches distance 1, ranged reaches distance 4, and melee reach implies ranged reach |
| Utils.ClosestIndex | lib/ai/enemyAI.ts:39-48 | the index of the first candidate at minimal distance |
| Utils.GetAttackTargets | lib/game/utils.ts:42-74 | an area attack takes every other character in range; a single attack takes at most one opposing character at minimal distance, the first such in list order (what the stable sort puts first), and none iff no opponent is in range |
| Utils.OpponentsInRange | lib/game/utils.ts:57-61 | exactly the characters of the other team within range |
| Utils.ClosestIsFirstOfTies | lib/game/utils.ts:57-73 | the closest opponent chosen is, in the original list, preceded only by opponents in range that are strictly farther |
| Utils.AreaTargetsSnoc | lib/game/utils.ts:48-54 | an area attack over one more character takes it last exactly when it is another character within range |
| Utils.AreaTargetsCount | lib/game/utils.ts:48-54 | an area attack takes each other character within range once per occurrence in the list, and nobody else |
| Utils.DistinctCellsCard | lib/game/utils.ts:76-108 | tiles on distinct cells cover as many cells as there are tiles |
| Utils.GenerateSpecialTiles | lib/game/utils.ts:76-108 | 49 tiles, 7 of each base kind in kind order, on distinct board cells, none on a starting cell |
| Utils.PickFreeCell | lib/game/utils.ts:89-100 | the accepted draw is a board cell neither used nor a starting cell |
| Utils.BlocksExtend | lib/game/utils.ts:89-105 | appending the next tile keeps the seven-per-kind block layout |
| Utils.BlockCount | lib/game/utils.ts:89-105 | in the block layout every prefix holds the expected count of each kind |
| Utils.RosterIdsDistinct | lib/game/utils.ts:110-229 | roster ids of different team/class pairs differ |
| Utils.InitializeCharacters | lib/game/utils.ts:110-229 | three player characters and three enemy characters, each on its own side |
| Utils.InitialRosterFacts | lib/game/utils.ts:110-229 | six characters with distinct ids and cells, full health and movement, alive, sane, on starting cells, with class attacks, armor and regeneration |
| Utils.RosterSlotsApart | lib/game/utils.ts:110-229 | the six roster slots have distinct team/class pairs and distinct cells |
| Utils.RosterMemberPlaced | lib/game/utils.ts:110-229 | every roster member stands on a starting cell with its class's attacks |
| Utils.RosterMatchesCreateCharacter | lib/game/utils.ts:110-229 | every roster member is what createCharacter builds, except that warriors get movement 4 where the class table says 3 |
| Utils.RosterFollowsClassTable | lib/game/utils.ts:110-229 | each roster member follows the class table, with the warrior's movement 4 |
| Utils.ClassRecordIsCreated | lib/game/characters.ts:4-32 | a record that follows the class table is the created character up to movement |
| Utils.OrderedTotal | lib/game/utils.ts:237-247 | the turn ordering compares any two characters |
| Utils.OrderedTransitive | lib/game/utils.ts:237-247 | the turn ordering is transitive |
| Utils.SortForTurns | lib/game/utils.ts:237 | the in-place sort leaves the array ordered for turns and a permutation of its old contents |
| Utils.SinkLast | lib/game/utils.ts:237 | inserting the next element keeps the prefix sorted and the array a permutation |
| Utils.SwapKeepsSortedAround | lib/game/utils.ts:237 | one swap of an out-of-order neighbour keeps the sortedness around the gap and the multiset |
| Utils.SortedAroundDone | lib/game/utils.ts:237 | when the sunk element is in place, the prefix is sorted |
| Utils.GenerateTurnOrder | lib/game/utils.ts:232-250 | the order has one id per living character and is the ids of a sorted arrangement of the living |
| Utils.PermutationMembers | lib/game/utils.ts:232-250 | a permutation has the same members |
| Utils.OrderIdsAreAliveIds | lib/game/utils.ts:232-250 | the ids of a permutation of the living are exactly the living ids |
| Utils.CountsRepeat | lib/game/utils.ts:232-250 | an element appearing at two indices occurs at least twice |
| Utils.ArrangementIdsDistinct | lib/game/utils.ts:232-250 | with distinct ids, a sub-multiset has no repeated id |
| Utils.SortedIsInitiativeSorted | lib/game/utils.ts:237-247 | a turn-sorted list has non-decreasing initiative, player before enemy at equal initiative |
| Utils.TurnOrderFacts | lib/game/utils.ts:232-250 | the order lists exactly the living ids, in initiative order, each once when ids are distinct |
| Utils.ArrangementIsSortedLiving | lib/game/utils.ts:232-250 | a sorted permutation of the living holds only living members in initiative order |
| Utils.ArrangementIdsAllDistinct | lib/game/utils.ts:232-250 | the turn order has no repeated id |
| GameLogic.LeadingTeam | lib/game/gameLogic.ts:24-32 | the first team is the team of the first character in the order, player when there is none |
| GameLogic.MarkUnused | lib/game/gameLogic.ts:10-13 | every generated tile is kept, at its cell and kind, unused |
| GameLogic.PlaceCharacters | lib/game/gameLogic.ts:15-21 | every occupied cell holds the id of a character standing there, and each character is on its cell unless a later one shares it |
| GameLogic.PlacedBoardAgrees | lib/game/gameLogic.ts:15-21 | placing living characters on distinct cells gives a board that agrees with the teams |
| GameLogic.AliveOnlyKeepsAll | lib/game/gameLogic.ts:24-26 | filtering an all-alive list changes nothing |
| GameLogic.InitialTiles | lib/game/gameLogic.ts:10-13 | 49 unused tiles of the base kinds on distinct cells away from the starting cells |
| GameLogic.InitializeGame | lib/game/gameLogic.ts:8-44 | the new game keeps the state invariant, holds the initial roster, the 49 tiles, a six-id turn order led by its first character's team, turn 1, index 0, and is not over |
| GameLogic.MoveCharacter | lib/game/gameLogic.ts:46-100 | an off-board target, a missing or dead mover, a zero or too-long step, or a taken cell leaves the state unchanged; otherwise the mover leaves its cell for the new one, its movement drops, the move count rises by one and only its team changes |
| GameLogic.MoveSucceedsIffCanMoveTo | lib/game/gameLogic.ts:46-100 | on a valid state a move takes effect iff the mover is alive, the step is non-zero and canMoveTo allows it |
| GameLogic.MovePreservesStateOk | lib/game/gameLogic.ts:46-100 | moving keeps the state invariant |
| GameLogic.ReplacedStaysOk | lib/game/gameLogic.ts:76-93 | replacing a member with a sane one of its side keeps the teams sane and tagged |
| GameLogic.ReplacedMembers | lib/game/gameLogic.ts:82-93 | after a replacement every member is old or the replacement |
| GameLogic.MoveRebuildsAll | lib/game/gameLogic.ts:82-93 | replacing inside the mover's team equals replacing in the list of everyone |
| GameLogic.MoveKeepsAgreement | lib/game/gameLogic.ts:76-99 | emptying the old cell and filling the new one keeps the board in agreement with the moved teams |
| GameLogic.MovedCellOwner | lib/game/gameLogic.ts:76-99 | every occupied cell after the move names a living character standing there |
| GameLogic.MovedMemberOnBoard | lib/game/gameLogic.ts:76-99 | every living character after the move stands on a cell naming it |
| GameAttack.OccupantAt | lib/game/gameLogic.ts:120-136 | finds a living non-attacker at the target cell, or none iff there is none |
| GameAttack.AttackTargets | lib/game/gameLogic.ts:116-188 | a mage takes every living non-attacker within 3; others take at most the living occupant of the target cell, none when it is out of reach (1, or 4 for a thief) or empty |
| GameAttack.MageIgnoresTargetPosition | lib/game/gameLogic.ts:156-166 | a mage's targets do not depend on the clicked cell |
| GameAttack.Absorb | lib/game/gameLogic.ts:205-218 | the shield absorbs first; the excess lowers health, floored at 0 |
| GameAttack.AbsorbBounds | lib/game/gameLogic.ts:205-218 | shield and health never rise, never go negative, together lose at most the damage, and health falls only once the shield is gone |
| GameAttack.Hit | lib/game/gameLogic.ts:191-232 | a crit happens iff a thief strikes in melee with a lucky roll and doubles the boosted damage; armor is then subtracted with a floor at 0; the target is alive iff health > 0 and only health, shield and alive flag change |
| GameAttack.HitKeepsCharacterOk | lib/game/gameLogic.ts:202-225 | a hit keeps the target sane and never raises its health or shield |
| GameAttack.IsMeleeIgnored | lib/game/gameLogic.ts:102-199 | the caller's melee flag never changes the outcome of a hit |
| GameAttack.Hits | lib/game/gameLogic.ts:191-232 | one hit per target, in target order |
| GameAttack.HitFor | lib/game/gameLogic.ts:235-266 | finds the hit on a character id, or none iff no hit is on it |
| GameAttack.HitTeam | lib/game/gameLogic.ts:235-266 | each member is replaced by its hit version if hit, else kept |
| GameAttack.HitWrites | lib/game/gameLogic.ts:243-246 | each hit member writes its cell: cleared when dead, its id when alive |
| GameAttack.WrittenStep | lib/game/gameLogic.ts:243-246 | performing the next write extends the last-write-wins account of the board |
| GameAttack.LastWritesStep | lib/game/gameLogic.ts:243-246 | after the next write, every cell whose last write is done holds that write's value |
| GameAttack.UnwrittenStep | lib/game/gameLogic.ts:243-246 | after the next write, cells nobody wrote keep their old value |
| GameAttack.ApplyHits | lib/game/gameLogic.ts:235-266 | the loop over a team yields the hit team and a board where each cell holds its last write or its old value |
| GameAttack.HitMember | lib/game/gameLogic.ts:236-248 | one step of the team map: the k-th hit member and its board write |
| GameAttack.HitWritesOnBoard | lib/game/gameLogic.ts:243-246 | every write lands on a board cell |
| GameAttack.CheckAfterAttack | lib/game/gameLogic.ts:283-289 | the game is over iff it was or a team has nobody alive; then the winner is the player iff a player survives; nothing else changes |
| GameAttack.TeamMapsKeepStateOk | lib/game/gameLogic.ts:235-289 | the two team maps and the game-over check keep the state invariant |
| GameAttack.CheckKeepsStateOk | lib/game/gameLogic.ts:283-289 | the game-over check keeps the state invariant |
| GameAttack.BothWipedOutEnemyWins | lib/game/gameLogic.ts:283-289 | when both teams are wiped out, the game is over and the enemy wins |
| GameAttack.PerformAttack | lib/game/gameLogic.ts:102-292 | a missing or dead attacker, or no target, gives no result and the unchanged state; otherwise the result lists the attacker's hits, both teams are hit, the game-over check runs, and the state invariant is kept |
| GameAttack.WrittenCompose | lib/game/gameLogic.ts:243-262 | writing the player team then the enemy team is one last-write-wins pass over everyone |
| GameAttack.WritesSplit | lib/game/gameLogic.ts:243-262 | no later write to a cell in the joined writes means none in either part |
| GameAttack.HitTeamSplits | lib/game/gameLogic.ts:235-266 | hitting the joined teams equals hitting each team |
| GameAttack.TargetsAreMembers | lib/game/gameLogic.ts:116-225 | every hit is on a living member, as the hit of that member |
| GameAttack.BoardAfterHits | lib/game/gameLogic.ts:243-262 | after the attack, a cell is cleared iff its occupant died, otherwise it is unchanged |
| GameAttack.OnlyStanderWrites | lib/game/gameLogic.ts:243-262 | a write to a cell comes from the character standing there |
| GameAttack.LastWriteHolds | lib/game/gameLogic.ts:243-262 | a cell holds the value of its last write |
| GameAttack.UnwrittenHolds | lib/game/gameLogic.ts:243-262 | a cell nobody wrote is unchanged |
| GameAttack.CellAfterHits | lib/game/gameLogic.ts:243-262 | each cell after the attack is cleared iff its occupant died |
| GameAttack.OccupiedCellAfterHits | lib/game/gameLogic.ts:243-262 | an occupied cell is cleared iff its occupant died |
| GameAttack.EmptyCellAfterHits | lib/game/gameLogic.ts:243-262 | an empty cell stays empty |
| GameAttack.HitMembers | lib/game/gameLogic.ts:220-225 | hit teams keep ids, positions and sides, stay sane, and nobody comes back to life |
| GameAttack.HitTeamTagged | lib/game/gameLogic.ts:235-266 | a hit team holds only its own side |
| GameAttack.HitsOnParts | lib/game/gameLogic.ts:235-266 | hits on members of the joined teams are hits on members of each team |
| GameAttack.AttackKeepsStateOk | lib/game/gameLogic.ts:235-266 | the board and teams after the hits keep the state invariant |
| GameAttack.UntargetedUnchanged | lib/game/gameLogic.ts:235-266 | characters that were not targeted are unchanged |
| EndTurn.ApplyBonus | lib/game/gameLogic.ts:317-350 | heal raises max health by 3 and health by 2 capped at the maximum; initiative never drops below 1; other kinds change only their own field; non-bonus kinds change nothing |
| EndTurn.ApplyStar | lib/game/gameLogic.ts:351-385 | a star changes only the bonus fields |
| EndTurn.BonusThenBonuses | lib/game/gameLogic.ts:351-385 | applying one bonus then a set of others equals applying the whole set |
| EndTurn.StarTally | lib/game/gameLogic.ts:351-385 | a star applies exactly the set of drawn kinds |
| EndTurn.StarOrderFree | lib/game/gameLogic.ts:355 | the order of the shuffled draw does not matter |
| EndTurn.TileEffect | lib/game/gameLogic.ts:317-385 | a tile changes no identity, place, life, movement boost or attacks; a normal tile changes nothing |
| EndTurn.BonusKeepsCharacterOk | lib/game/gameLogic.ts:317-350 | a bonus keeps the character sane and does not lower health |
| EndTurn.StarKeepsCharacterOk | lib/game/gameLogic.ts:351-385 | a star keeps the character sane |
| EndTurn.TileKeepsCharacterOk | lib/game/gameLogic.ts:317-385 | any tile keeps the character sane |
| EndTurn.UnusedTileAt | lib/game/gameLogic.ts:307-313 | the first unused tile at the cell, or -1 when there is none |
| EndTurn.UsedTile | lib/game/gameLogic.ts:301-313 | the tile found lies under the acting character and is unused |
| EndTurn.ReplaceInItsTeam | lib/game/gameLogic.ts:392-397 | only the members with that id are replaced; nothing else changes |
| EndTurn.TileApplied | lib/game/gameLogic.ts:301-400 | without a tile the state is unchanged; otherwise that tile alone becomes used and only the acting character changes |
| EndTurn.ReplaceKeepsStateOk | lib/game/gameLogic.ts:392-397 | replacing a character with a sane one at the same place keeps the invariant |
| EndTurn.FindReplaced | lib/game/gameLogic.ts:392-397 | the replacement is found under its id |
| EndTurn.TileAppliedKeepsStateOk | lib/game/gameLogic.ts:301-400 | the tile step keeps the invariant and the board, and the acting character carries the tile effect |
| EndTurn.AliveIds | lib/game/gameLogic.ts:403-409 | the ids of the living are exactly the ids of living members |
| EndTurn.AliveMemberIsOfLiving | lib/game/gameLogic.ts:403-409 | each living member's id belongs to a living character |
| EndTurn.LivingIdIsListed | lib/game/gameLogic.ts:403-409 | each living character's id is among the living ids |
| EndTurn.PrunedOrder | lib/game/gameLogic.ts:403-409 | the pruned order keeps exactly the ids of living characters, in a sub-multiset of the old order |
| EndTurn.PrunedOrderSnoc | lib/game/gameLogic.ts:408-409 | pruning an order with one more id appends it exactly when a living character has it, so the pruned order keeps the old order |
| EndTurn.RoundReset | lib/game/gameLogic.ts:419-430 | a living character gets full movement and its class's attacks; a dead one gets no attacks |
| EndTurn.RoundResetIsTurnReset | lib/game/characters.ts:34-41 | for a living character without a movement boost, the rollover reset is resetCharacterTurn |
| EndTurn.RoundResetTeam | lib/game/gameLogic.ts:419-430 | each team member is reset |
| EndTurn.WriteAliveSame | lib/game/gameLogic.ts:431-437 | writing the living characters back onto a board that already shows them changes nothing |
| EndTurn.WriteAliveOnBoard | lib/game/gameLogic.ts:431-437 | the loop writes every living character onto its cell |
| EndTurn.ResetRound | lib/game/gameLogic.ts:412-437 | the rollover resets both teams |
| EndTurn.ResetRoundKeepsStateOk | lib/game/gameLogic.ts:412-437 | the rollover keeps the invariant and the board |
| EndTurn.ResetMembers | lib/game/gameLogic.ts:419-430 | the reset keeps ids, cells, life and sanity |
| EndTurn.ResetKeepsTags | lib/game/gameLogic.ts:419-430 | a reset team keeps its side |
| EndTurn.BaseKindRanks | lib/game/gameLogic.ts:439-476 | the base kinds are spawned in their listed order |
| EndTurn.Occupied | lib/game/gameLogic.ts:441-450 | the cells to avoid hold every living character and every unused tile |
| EndTurn.SpawnTiles | lib/game/gameLogic.ts:439-498 | each spawned tile is unused, on a free board cell, on its own cell, at most one per kind in kind order; a star only every third round and only in the centre |
| EndTurn.Regenerated | lib/game/gameLogic.ts:502-519 | health rises by the regeneration rate, capped at the maximum; nothing else changes |
| EndTurn.NextId | lib/game/gameLogic.ts:502-503 | the next id exists iff the index is inside the order |
| EndTurn.RegenNext | lib/game/gameLogic.ts:502-519 | only the next character may change, and then only by regenerating |
| EndTurn.RegenKeepsStateOk | lib/game/gameLogic.ts:502-519 | regeneration keeps the invariant and the board |
| EndTurn.EndTurn | lib/game/gameLogic.ts:294-533 | without rollover, the order is pruned and the index advances; on rollover, the index is 0, the turn count rises by one, the order is rebuilt, tiles are kept and new ones spawned; the index always lies in the order; the invariant and board are kept |
| EndTurn.RolloverRestoresTurn | lib/game/gameLogic.ts:412-437 | after a rollover every living character has full movement and class attacks, and every dead one has none |
| EnemyAI.FindLiving | lib/ai/enemyAI.ts:25-30 | finds the first living character with that id, or none iff there is none |
| EnemyAI.CurrentEnemy | lib/ai/enemyAI.ts:25-30 | the current actor is a living enemy named by the order at the index |
| EnemyAI.BestMoveUnique | lib/ai/enemyAI.ts:122-156 | the best move is uniquely determined |
| EnemyAI.ConsiderExtends | lib/ai/enemyAI.ts:132-154 | considering the next cell keeps the best move so far |
| EnemyAI.VisitColumn | lib/ai/enemyAI.ts:130-155 | scanning a column keeps the best move so far |
| EnemyAI.VisitCell | lib/ai/enemyAI.ts:132-154 | visiting one cell keeps the best move so far |
| EnemyAI.ColumnComplete | lib/ai/enemyAI.ts:130-155 | a finished column moves on to the next |
| EnemyAI.FindBestMove | lib/ai/enemyAI.ts:122-156 | the result is the first reachable free cell within movement closest to the target, or none iff no candidate exists |
| EnemyAI.ClosestTarget | lib/ai/enemyAI.ts:39-48 | the first target at minimal distance, and that distance |
| EnemyAI.GetEnemyMove | lib/ai/enemyAI.ts:18-120 | the move is the decision for the state: idle, attack the closest target in range, or approach it |
| EnemyAI.EnemyIdlesWhenNothingToDo | lib/ai/enemyAI.ts:20-36 | off turn, after game over or with no living player, the enemy ends its turn |
| EnemyAI.ClosestIsLivingAndNearest | lib/ai/enemyAI.ts:33-48 | the target is a living player at minimal distance |
| EnemyAI.EnemyAttackLegal | lib/ai/enemyAI.ts:55-105 | an attack is by the current enemy on the closest living player within class range, with a melee flag that canAttack accepts |
| EnemyAI.MeleeFor | lib/ai/enemyAI.ts:55-105 | a mage never attacks in melee, and the flag each class picks reaches any distance within its range |
| EnemyAI.MeleeFlagReaches | lib/ai/enemyAI.ts:55-105 | the class's melee flag reaches any target within class range |
| EnemyAI.MoveComesFromApproach | lib/ai/enemyAI.ts:108-117 | a move approaches the closest target out of range, to the best cell |
| EnemyAI.EnemyMoveLegal | lib/ai/enemyAI.ts:108-117 | a move is to a reachable, free, different cell at least as close to an out-of-range target as any other |
| AI.Healthy | lib/game/ai.ts:13-17 | keeps exactly the members with health > 0 |
| AI.HealthySnoc | lib/game/ai.ts:13-17 | filtering extends one member at a time |
| AI.Strongest | lib/game/ai.ts:20-22 | the reduce returns a member with the most health |
| AI.StrongestSnoc | lib/game/ai.ts:20-22 | the reduce keeps the earlier of equal healths |
| AI.SelectActor | lib/game/ai.ts:13-22 | none iff no enemy has health > 0; otherwise an enemy with health > 0 and maximal health |
| AI.SelectSnoc | lib/game/ai.ts:13-22 | selection extends one member at a time |
| AI.SelectIsEarliest | lib/game/ai.ts:20-22 | the earliest enemy of maximal health wins ties |
| AI.LastIsEarliest | lib/game/ai.ts:20-22 | a new strictly healthier last enemy is the earliest maximum |
| AI.EarliestStays | lib/game/ai.ts:20-22 | appending an enemy keeps an earlier maximum |
| AI.Toward | lib/game/ai.ts:44-63 | one step of -1, 0 or +1 in the target's direction |
| AI.Step | lib/game/ai.ts:44-63 | the step moves each coordinate by at most one |
| AI.StepApproaches | lib/game/ai.ts:44-63 | a step toward a different cell strictly lowers the distance by the step's length |
| AI.GetAIMove | lib/game/ai.ts:12-69 | the move read from the units is the decision on their current values |
| AI.Decide | lib/game/ai.ts:32-65 | its guarantees are stated by DecideIsLegal: the first target allowing a strike or a step decides |
| AI.DecideIsLegal | lib/game/ai.ts:32-65 | an attack strikes a target canAttack accepts; a move is a step toward a target more than 1 away onto a cell canMoveTo allows |
| AI.AIDecision | lib/game/ai.ts:12-69 | its guarantees are stated by AIDecisionIsLegal |
| AI.AIDecisionIsLegal | lib/game/ai.ts:12-69 | with no living enemy the turn ends with id ''; otherwise the strongest enemy acts, ends its turn when no player lives, and only attacks or moves legally |
| BoardTypes.Unit.constructor | lib/game/board.ts:76-88 | a unit holds the given character |
| BoardTypes.Tile.constructor | lib/game/board.ts:16-42 | a tile has the given cell and kind and is unused |
| BoardTypes.States | lib/game/types.ts:1-60 | the values currently held by the units, in order |
| BoardTypes.BoardUnits | lib/game/types.ts:1-60 | the units on the board |
| BoardTypes.View | lib/game/types.ts:1-60 | the board read as character values |
| Board.CreateBoard | lib/game/board.ts:5-14 | 16 rows of 16 empty cells |
| Board.GetRandomPosition | lib/game/board.ts:44-53 | the accepted draw is a board cell not used before |
| Board.PlaceTiles | lib/game/board.ts:16-42 | ten new unused tiles of one kind on distinct new cells |
| Board.GenerateBoardTiles | lib/game/board.ts:16-42 | 30 unused tiles, 10 each of heal, damage boost and movement boost, on distinct cells |
| Board.PlaceTeam | lib/game/board.ts:76-88 | each class is created on its cell and placed there; other cells are unchanged |
| Board.StandNext | lib/game/board.ts:76-88 | placing the next unit keeps earlier placements |
| Board.OccupiedCellsOneEach | lib/game/board.ts:76-88 | distinct units on distinct cells stand on one cell each |
| Board.StartingIdsDistinct | lib/game/board.ts:55-113 | the six created characters have distinct ids and are alive |
| Board.StartingSlots | lib/game/board.ts:55-113 | the six created characters have the default ids of their slots |
| Board.SlotsDistinct | lib/game/board.ts:55-113 | the six team/class slots differ |
| Board.StartingCellsApart | lib/game/board.ts:61-72 | the six starting cells are on the board and distinct |
| Board.PlaceStartingTeams | lib/game/board.ts:55-88 | both teams are created on their cells and placed, one cell each |
| Board.TeamsStandApart | lib/game/board.ts:76-88 | the two placements together give the starting board |
| Board.InitializeBoardGame | lib/game/board.ts:55-113 | six characters placed on their cells, 30 tiles, an initiative order and leading team, turn 1, index 0, not over |
| Board.OrderOpeningTurns | lib/game/board.ts:93-102 | the opening order and the team of its first character |
| Board.FirstTeam | lib/game/board.ts:93-102 | the first team is the team of the first character in the order |
| Board.CheckSpecialTile | lib/game/board.ts:115-121 | an unused tile at exactly that cell, or none iff there is none |
| Board.TileValues | lib/game/board.ts:115-121 | the tiles' current values in order |
| Board.CheckSpecialTileAsInEndTurn | lib/game/board.ts:115-121 | the lookup finds the same tile as endTurn's search |
| Board.BoardTileBonus | lib/game/board.ts:123-140 | heal adds 3 health up to the maximum, damage boost adds 2, movement boost sets the boost to 3, nothing else changes |
| Board.BoardBonusKeepsCharacterOk | lib/game/board.ts:123-140 | a board tile keeps the character sane |
| Board.ApplySpecialTile | lib/game/board.ts:123-140 | the tile becomes used and the character gets its bonus |
| Board.GameOverVerdict | lib/game/board.ts:142-154 | over iff a side has nobody with health > 0; the enemy wins when no player stands, else the player |
| Board.CheckGameOver | lib/game/board.ts:142-154 | the verdict on the units' current values |
| Board.VerdictAsAfterAttack | lib/game/gameLogic.ts:283-289 | checkGameOver agrees with the inline check after an attack |
| Board.StandingIsAlive | lib/game/board.ts:142-154 | for sane characters, health > 0 is being alive |
| Combat.StrikeDamage | lib/game/combat.ts:7-33 | a crit only for a thief in melee; it doubles the base damage, then the boost is added and armor subtracted, floored at 0 |
| Combat.CriticalOrder | lib/game/combat.ts:7-33 | the two engines agree without a crit; with one, combat.ts deals less by the boost |
| Combat.CanStrike | lib/game/combat.ts:35-53 | its meaning is stated by CanStrikeVsRanges, per class |
| Combat.CanStrikeVsRanges | lib/game/combat.ts:35-53 | non-mages strike from 1 up to their range; a mage strikes within 4 |
| Combat.GetAttackTargets | lib/game/combat.ts:55-85 | the targets are the occupants, one for one, of exactly the cells the attack strikes, in scan order |
| Combat.ScanOrderUnique | lib/game/combat.ts:63-75 | two lists of cells in strict scan order holding the same cells are equal |
| Combat.TargetsDetermined | lib/game/combat.ts:55-85 | the struck cells and hence the targets are determined by the attacker, the aimed cell and the board |
| Combat.ScanRow | lib/game/combat.ts:63-75 | one row of the scan collects exactly the blast cells of that row |
| Combat.ScanStep | lib/game/combat.ts:63-75 | one cell of the scan keeps the scan invariant |
| Combat.ScanHit | lib/game/combat.ts:63-75 | an occupied blast cell adds its occupant |
| Combat.TargetsDistinct | lib/game/combat.ts:55-85 | the targets are distinct and exclude the attacker |
| Combat.Struck | lib/game/combat.ts:103-120 | shield absorbs first, health floored at 0, alive iff health > 0 |
| Combat.StruckAsInStateEngine | lib/game/combat.ts:103-120 | damage is absorbed as in the value engine |
| Combat.HitUnits | lib/game/combat.ts:100-127 | the units hit, in order |
| Combat.ExecuteAttack | lib/game/combat.ts:87-133 | each target takes its strike in place, the attacker loses exactly one attack, and no other unit changes |
| Combat.StrikeAll | lib/game/combat.ts:100-127 | each target takes its strike in place; other units are unchanged |
| Sorting.SortDescending | lib/db/stats.ts:43-44 | the sorted list is a permutation of the input |
| Sorting.SortIsDescending | lib/db/stats.ts:43-44 | newest timestamp first |
| Sorting.SortIsStable | lib/db/stats.ts:43-44 | games with equal timestamps keep their relative order |
| Sorting.SliceEnd | lib/db.ts:111 | the length slice(0, limit) keeps, negative limits included |
| Sorting.Newest | lib/db.ts:108-111 | the newest games have the slice's length and are a sub-multiset |
| Sorting.NewestFacts | lib/db.ts:108-111 | the newest games are newest first, and no dropped game is newer than a kept one |
| Db.FindUser | lib/db.ts:74-77 | the user with that name, or none iff nobody has it |
| Db.RecordCountsOneGame | lib/db.ts:97-104 | one game adds one to the total and to exactly one of victories and defeats, adds turns and movements, and keeps victories + defeats = total |
| Db.GamesOf | lib/db.ts:108-109 | exactly that user's games |
| Db.GamesOfAppend | lib/db.ts:108-109 | a user's games in a longer log are those of the older part, then those of the newer one |
| Db.GamesOfCount | lib/db.ts:108-109 | each game of the user is listed as often as it was saved, no other game at all |
| Db.Database.constructor | lib/db.ts:30-35 | empty tables and both counters at 1 |
| Db.Database.UserByUsername | lib/db.ts:74-77 | the user with that name, or none iff nobody has it |
| Db.Database.UserById | lib/db.ts:79-81 | the user with that id, or none iff nobody has it |
| Db.Database.StatsOf | lib/db.ts:116-118 | a stats row exists iff the user does, and its counts balance |
| Db.Database.LastGames | lib/db.ts:107-114 | only that user's games, as many as the slice keeps, newest first, no dropped game newer than a kept one |
| Db.Database.CreateUser | lib/db.ts:43-72 | a taken name is refused with nothing changed; otherwise the user gets the next id and a zeroed stats row |
| Db.Database.CreateGame | lib/db.ts:84-105 | the game is stored with the next id; the user's stats row, if any, counts it |
| Db.DefaultLimitIsTen | lib/db.ts:107 | by default at most 10 games, exactly 10 when there are that many |
| Stats.WonAndLostPartition | lib/db/stats.ts:21-25 | every game is either won or lost |
| Stats.Summary | lib/db/stats.ts:14-59 | total, wins and losses count the list; recent games are the 10 newest, newest first |
| Stats.StatsStore.constructor | lib/db/stats.ts:6 | an empty store |
| Stats.StatsStore.SaveGameStats | lib/db/stats.ts:8-12 | the record is appended to its user's list; other lists are unchanged |
| Stats.StatsStore.GetUserStats | lib/db/stats.ts:14-59 | none iff the user has no games; otherwise the summary, with the stored list left sorted newest first |
| Stats.SortedListKeepsGames | lib/db/stats.ts:43-44 | sorting the stored list keeps its games and the order of equal timestamps |

## Left out

- Rendering, UI state, HTTP routes, authentication, the setup script and the build config are not part of this model. They are presentation, transport or foreign libraries.
- `Math.random` outcomes are inputs, not distributions: the crit roll (`THIEF_CRIT_CHANCE`), tile coordinates, the star shuffle and same-team initiative ties. The model says nothing about probabilities.
- `Date.now()` ids and timestamps are a `now` parameter or integers carried by the records.
- `async`/`Promise` wrappers are modelled as plain sequential code, since none of them waits on anything.
- The floating-point averages and their rounding in `lib/db/stats.ts:27-41, 53-56` are not modelled; `Stats.Summary` covers the counts and the recent games only.
- `initDB` and `getDB` in `lib/db.ts` do nothing and are not modelled.
- The key-indexed maps of `lib/db.ts` are sequences in insertion order. Lookups by id therefore rely on the ids being distinct, which `Db.Database.Valid` keeps.
- Board.GetRandomPosition: requires a free cell, because the source would draw forever on a full board; the model takes the accepted draw, not the rejected ones.
- Utils.PickFreeCell: requires fewer than 250 used cells, which the 49 tiles always meet; the model takes the accepted draw of the retry loop.
- EndTurn.SpawnTiles: each retry loop is modelled with its bound of 100 or 50 attempts, and each draw is any cell; the model does not say which cells are more likely, and a kind may be skipped.
- Combat.ExecuteAttack: requires that each unit stands on one cell only, which the source never checks; without it the same unit could be struck twice through aliasing.
- EndTurn.EndTurn: the state invariant is promised only when the acting character is alive or absent, because the source writes a dead acting character's id back onto the board.
- The `isMelee` argument of `performAttack` and the unused board parameters of the AI helpers are carried but, as in the source, never read.
