/**
 * Data shapes of lib/types/game.ts (used by gameLogic, utils and enemyAI):
 * characters, special tiles, the game state with its board of character ids,
 * attack results and per-game statistics; plus the look-ups over team lists
 * that every operation of the engine performs, and the state invariants.
 */
module Types {
  import opened Wrappers
  import opened Geometry
  import opened Constants

  datatype TileKind =
    | Heal | DamageBoost | MovementBoost | InitiativeBoost | Armor | Shield | Regeneration
    | Star | Normal

  /** The seven base kinds that are scattered on the board and that a star tile draws from. */
  predicate IsBaseKind(k: TileKind)
  {
    k != Star && k != Normal
  }

  const BASE_KINDS: seq<TileKind> := [Heal, DamageBoost, MovementBoost, InitiativeBoost, Armor, Shield, Regeneration]

  datatype Character = Character(
    id: string,
    kind: CharacterType,
    team: Team,
    position: Position,
    health: int,
    maxHealth: int,
    movement: int,
    maxMovement: int,
    isAlive: bool,
    damageBoost: int,
    movementBoost: int,
    attacksRemaining: int,
    initiative: int,
    armor: int,
    shield: int,
    regeneration: int)

  datatype SpecialTile = SpecialTile(position: Position, kind: TileKind, used: bool)

  datatype GameState = GameState(
    board: Grid<string>,
    playerTeam: seq<Character>,
    enemyTeam: seq<Character>,
    specialTiles: seq<SpecialTile>,
    currentTurn: Team,
    currentCharacterIndex: int,
    selectedCharacter: Option<Character>,
    gameOver: bool,
    winner: Option<Team>,
    turnCount: int,
    moveCount: int,
    movementCount: int,
    turnOrder: seq<string>,
    currentTurnOrderIndex: int)

  datatype TargetHit = TargetHit(character: Character, damage: int, isCritical: bool)

  datatype AttackResult = AttackResult(attacker: Character, targets: seq<TargetHit>)

  /** One finished game as recorded by the statistics store; `timestamp` is the clock value. */
  datatype GameStats = GameStats(userId: string, gameId: string, won: bool, turns: int, moves: int, duration: int, timestamp: int)

  /** Per-user aggregate; the floating-point averages are not part of this model. */
  datatype UserStats = UserStats(userId: string, username: string, totalGames: int, wins: int, losses: int, recentGames: seq<GameStats>)

  /** The player team followed by the enemy team. */
  function All(s: GameState): seq<Character>
  {
    s.playerTeam + s.enemyTeam
  }

  /** The first index holding that id, or -1. */
  function IndexOfId(chars: seq<Character>, id: string): (k: int)
    ensures -1 <= k < |chars|
    ensures k >= 0 ==> chars[k].id == id
    ensures forall j :: 0 <= j < |chars| && (k < 0 || j < k) ==> chars[j].id != id
  {
    if |chars| == 0 then -1
    else if chars[0].id == id then 0
    else
      var k := IndexOfId(chars[1..], id);
      if k < 0 then -1 else k + 1
  }

  /** The first member with that id, if any. */
  function FindById(chars: seq<Character>, id: string): (r: Option<Character>)
    ensures r.Some? ==> r.value in chars && r.value.id == id
    ensures r.None? <==> forall c :: c in chars ==> c.id != id
  {
    var k := IndexOfId(chars, id);
    if k < 0 then None else Some(chars[k])
  }

  /** Every member with that id replaced by `u`. */
  function ReplaceById(chars: seq<Character>, id: string, u: Character): (r: seq<Character>)
    ensures |r| == |chars|
    ensures forall i :: 0 <= i < |chars| ==> r[i] == (if chars[i].id == id then u else chars[i])
  {
    seq(|chars|, i requires 0 <= i < |chars| => if chars[i].id == id then u else chars[i])
  }

  /** The living members, in order, each as often as it occurs. */
  function AliveOnly(chars: seq<Character>): (r: seq<Character>)
    ensures |r| <= |chars|
    ensures forall c :: c in r <==> c in chars && c.isAlive
    ensures multiset(r) <= multiset(chars)
  {
    if chars == [] then []
    else
      assert chars == [chars[0]] + chars[1..];
      if chars[0].isAlive then [chars[0]] + AliveOnly(chars[1..])
    else AliveOnly(chars[1..])
  }

  /** Every living member is kept as often as it occurs, and no dead one. */
  lemma {:induction false} AliveOnlyCount(chars: seq<Character>, c: Character)
    ensures multiset(AliveOnly(chars))[c] == if c.isAlive then multiset(chars)[c] else 0
  {
    if chars != [] {
      assert chars == [chars[0]] + chars[1..];
      AliveOnlyCount(chars[1..], c);
    }
  }

  /** The living members of a concatenation are those of each part, in order. */
  lemma {:induction false} AliveOnlyAppend(a: seq<Character>, b: seq<Character>)
    ensures AliveOnly(a + b) == AliveOnly(a) + AliveOnly(b)
  {
    if a != [] {
      assert (a + b)[0] == a[0];
      assert (a + b)[1..] == a[1..] + b;
      AliveOnlyAppend(a[1..], b);
    }
    else {
      assert a + b == b;
    }
  }

  /** The members satisfying `p`, in their original order, each as often as it occurs. */
  function Filter<T(!new)>(s: seq<T>, p: T -> bool): (r: seq<T>)
    ensures |r| <= |s|
    ensures forall x :: x in r <==> x in s && p(x)
    ensures multiset(r) <= multiset(s)
  {
    if s == [] then []
    else
      assert s == [s[0]] + s[1..];
      if p(s[0]) then [s[0]] + Filter(s[1..], p) else Filter(s[1..], p)
  }

  /** Filtering distributes over concatenation: the kept members stay in their order. */
  lemma {:induction false} FilterAppend<T(!new)>(a: seq<T>, b: seq<T>, p: T -> bool)
    ensures Filter(a + b, p) == Filter(a, p) + Filter(b, p)
  {
    if a != [] {
      assert (a + b)[0] == a[0];
      assert (a + b)[1..] == a[1..] + b;
      FilterAppend(a[1..], b, p);
    }
    else {
      assert a + b == b;
    }
  }

  /** Every member satisfying `p` is kept as often as it occurs, and no other. */
  lemma {:induction false} FilterCount<T(!new)>(s: seq<T>, p: T -> bool, x: T)
    ensures multiset(Filter(s, p))[x] == if p(x) then multiset(s)[x] else 0
  {
    if s != [] {
      assert s == [s[0]] + s[1..];
      FilterCount(s[1..], p, x);
    }
  }

  /** Filtering one more element appends it exactly when it satisfies `p`. */
  lemma FilterSnoc<T(!new)>(init: seq<T>, last: T, p: T -> bool)
    ensures Filter(init + [last], p) == Filter(init, p) + (if p(last) then [last] else [])
  {
    FilterAppend(init, [last], p);
    assert [last][1..] == [];
  }

  /**
   * Where the k-th kept member comes from: an index of `s` holding it, before
   * which every member satisfying `p` is one of the first k kept ones.
   */
  lemma {:induction false} FilterOrigin<T(!new)>(s: seq<T>, p: T -> bool, k: nat) returns (i: nat)
    requires k < |Filter(s, p)|
    ensures i < |s| && s[i] == Filter(s, p)[k]
    ensures forall j :: 0 <= j < i && p(s[j]) ==> exists m :: 0 <= m < k && Filter(s, p)[m] == s[j]
  {
    assert s == [s[0]] + s[1..];
    if p(s[0]) && k == 0 {
      i := 0;
    } else {
      var k' := if p(s[0]) then k - 1 else k;
      var i' := FilterOrigin(s[1..], p, k');
      forall j | 1 <= j < i' + 1 && p(s[j])
        ensures exists m :: 0 <= m < k' && Filter(s[1..], p)[m] == s[j]
      {
        assert s[j] == s[1..][j - 1];
      }
      if p(s[0]) {
        OriginShiftsKept(s, p, k, i');
      } else {
        OriginShiftsSkipped(s, p, k, i');
      }
      i := i' + 1;
    }
  }

  /** One step of `FilterOrigin` when the head is kept: the origin in the tail, shifted by one. */
  lemma OriginShiftsKept<T(!new)>(s: seq<T>, p: T -> bool, k: nat, i': nat)
    requires s != [] && p(s[0]) && k > 0
    requires k - 1 < |Filter(s[1..], p)| && i' < |s| - 1 && s[i' + 1] == Filter(s[1..], p)[k - 1]
    requires forall j :: 1 <= j < i' + 1 && p(s[j]) ==> exists m :: 0 <= m < k - 1 && Filter(s[1..], p)[m] == s[j]
    ensures k < |Filter(s, p)| && s[i' + 1] == Filter(s, p)[k]
    ensures forall j :: 0 <= j < i' + 1 && p(s[j]) ==> exists m :: 0 <= m < k && Filter(s, p)[m] == s[j]
  {
    var rest := Filter(s[1..], p);
    var all := Filter(s, p);
    assert all == [s[0]] + rest;
    forall j | 0 <= j < i' + 1 && p(s[j])
      ensures exists m :: 0 <= m < k && all[m] == s[j]
    {
      if j == 0 {
        assert all[0] == s[j];
      } else {
        var m :| 0 <= m < k - 1 && rest[m] == s[j];
        assert all[m + 1] == s[j];
      }
    }
  }

  /** One step of `FilterOrigin` when the head is dropped: the origin in the tail, shifted by one. */
  lemma OriginShiftsSkipped<T(!new)>(s: seq<T>, p: T -> bool, k: nat, i': nat)
    requires s != [] && !p(s[0])
    requires k < |Filter(s[1..], p)| && i' < |s| - 1 && s[i' + 1] == Filter(s[1..], p)[k]
    requires forall j :: 1 <= j < i' + 1 && p(s[j]) ==> exists m :: 0 <= m < k && Filter(s[1..], p)[m] == s[j]
    ensures k < |Filter(s, p)| && s[i' + 1] == Filter(s, p)[k]
    ensures forall j :: 0 <= j < i' + 1 && p(s[j]) ==> exists m :: 0 <= m < k && Filter(s, p)[m] == s[j]
  {
    assert Filter(s, p) == Filter(s[1..], p);
  }

  /** The ids of the members, in order. */
  function Ids(chars: seq<Character>): (r: seq<string>)
    ensures |r| == |chars|
    ensures forall i :: 0 <= i < |chars| ==> r[i] == chars[i].id
  {
    seq(|chars|, i requires 0 <= i < |chars| => chars[i].id)
  }

  /** Some member is alive. */
  predicate AnyAlive(chars: seq<Character>)
  {
    exists c :: c in chars && c.isAlive
  }

  predicate UniqueIds(chars: seq<Character>)
  {
    forall i, j :: 0 <= i < j < |chars| ==> chars[i].id != chars[j].id
  }

  /** The per-character invariant the engine keeps: the cached flag agrees with the health, and no counter is negative. */
  predicate CharacterOk(c: Character)
  {
    && (c.isAlive <==> c.health > 0)
    && 0 <= c.health <= c.maxHealth
    && 0 <= c.movement && 0 <= c.maxMovement && 0 <= c.movementBoost
    && 0 <= c.shield && 0 <= c.armor && 0 <= c.regeneration && 0 <= c.damageBoost
    && 1 <= c.initiative
  }

  /**
   * Board/team agreement: ids are unique, every character stands on a cell,
   * every living character's cell holds its id, and every occupied cell holds
   * the id of a living character standing there.
   */
  ghost predicate BoardAgrees(board: Grid<string>, chars: seq<Character>)
  {
    && IsGrid(board)
    && UniqueIds(chars)
    && (forall c :: c in chars ==> IsValidPosition(c.position))
    && (forall c :: c in chars && c.isAlive ==> At(board, c.position) == Some(c.id))
    && (forall p :: IsValidPosition(p) && At(board, p).Some? ==>
          var k := IndexOfId(chars, At(board, p).value);
          k >= 0 && chars[k].isAlive && chars[k].position == p)
  }

  /** Each team list holds only members of that team. */
  predicate TeamsTagged(s: GameState)
  {
    && (forall c :: c in s.playerTeam ==> c.team == Player)
    && (forall c :: c in s.enemyTeam ==> c.team == Enemy)
  }

  /** The state invariant: the board agrees with the teams, the teams are tagged, every character is well formed. */
  ghost predicate StateOk(s: GameState)
  {
    && BoardAgrees(s.board, All(s))
    && TeamsTagged(s)
    && forall c :: c in All(s) ==> CharacterOk(c)
  }

  /** With unique ids a character value occurs at most once. */
  lemma {:induction false} UniqueOccursOnce(chars: seq<Character>, c: Character)
    requires UniqueIds(chars)
    ensures multiset(chars)[c] <= 1
  {
    if chars != [] {
      assert chars == [chars[0]] + chars[1..];
      UniqueOccursOnce(chars[1..], c);
      if c == chars[0] {
        assert c !in chars[1..] by {
          forall j | 0 <= j < |chars[1..]|
            ensures chars[1..][j] != c
          {
            assert chars[0].id != chars[j + 1].id;
          }
        }
      }
    }
  }

  /** Element `i` of a joined sequence comes from the left part below its length and from the right part above. */
  lemma JoinedAt<T>(a: seq<T>, b: seq<T>, i: int)
    requires 0 <= i < |a| + |b|
    ensures i < |a| ==> (a + b)[i] == a[i]
    ensures |a| <= i ==> (a + b)[i] == b[i - |a|]
  {
  }

  /** With unique ids, looking a member up by its id finds that very member. */
  lemma FindMember(chars: seq<Character>, i: int)
    requires UniqueIds(chars) && 0 <= i < |chars|
    ensures IndexOfId(chars, chars[i].id) == i
    ensures FindById(chars, chars[i].id) == Some(chars[i])
  {
  }
}
