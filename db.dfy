/**
 * lib/db.ts: the in-memory store of users, finished games and per-user
 * statistics. The module-level maps and id counters become the fields of
 * one `Database` object. The users and games maps are keyed by ids drawn
 * from counters that start at 1 and only grow, and a JavaScript map iterates
 * in insertion order, so each of them is kept as the list of its values in
 * insertion order: the record with id `k` is the `k`-th of the list.
 * The clock (`new Date()`) is a parameter of the operations that read it.
 */
module Db {
  import opened Wrappers
  import opened Types
  import opened Sorting

  datatype User = User(id: int, username: string, passwordHash: string, createdAt: int)

  datatype Game = Game(id: int, userId: int, won: bool, turns: int, movements: int, createdAt: int)

  datatype StatsRow = StatsRow(userId: int, victories: int, defeats: int, totalGames: int, totalTurns: int, totalMovements: int)

  const DUPLICATE_USERNAME: string := "Username already exists"

  /** The default of getLastGames's `limit`. */
  const DEFAULT_LIMIT: int := 10

  function CreatedAt(g: Game): int
  {
    g.createdAt
  }

  /** The first user with this name, as the find of getUserByUsername gives it. */
  function FindUser(us: seq<User>, username: string): (r: Option<User>)
    ensures r.None? <==> forall u :: u in us ==> u.username != username
    ensures r.Some? ==> r.value in us && r.value.username == username
  {
    if us == [] then None
    else if us[0].username == username then Some(us[0])
    else
      assert forall u :: u in us ==> u == us[0] || u in us[1..];
      FindUser(us[1..], username)
  }

  /** The counters each statistics row keeps consistent: every game is a victory or a defeat. */
  predicate Balanced(row: StatsRow)
  {
    row.victories >= 0 && row.defeats >= 0 && row.victories + row.defeats == row.totalGames
  }

  /** The update createGame applies to the row of the player. */
  function Record(row: StatsRow, won: bool, turns: int, movements: int): StatsRow
  {
    row.(victories := row.victories + (if won then 1 else 0),
         defeats := row.defeats + (if won then 0 else 1),
         totalGames := row.totalGames + 1,
         totalTurns := row.totalTurns + turns,
         totalMovements := row.totalMovements + movements)
  }

  /**
   * Recording a game counts it once, as exactly one victory or one defeat
   * according to `won`, adds its turns and movements, and keeps the row
   * balanced; nothing else of the row changes.
   */
  lemma RecordCountsOneGame(row: StatsRow, won: bool, turns: int, movements: int)
    ensures var r := Record(row, won, turns, movements);
      && r.userId == row.userId
      && r.totalGames == row.totalGames + 1
      && (won ==> r.victories == row.victories + 1 && r.defeats == row.defeats)
      && (!won ==> r.defeats == row.defeats + 1 && r.victories == row.victories)
      && r.totalTurns == row.totalTurns + turns && r.totalMovements == row.totalMovements + movements
    ensures Balanced(row) ==> Balanced(Record(row, won, turns, movements))
  {
  }

  /** The games of one player, in insertion order. */
  function GamesOf(games: seq<Game>, userId: int): (r: seq<Game>)
    ensures forall g :: g in r <==> g in games && g.userId == userId
    ensures multiset(r) <= multiset(games)
  {
    Filter(games, (g: Game) => g.userId == userId)
  }

  /** A player's games in a longer log: those of the older part, then those of the newer one. */
  lemma GamesOfAppend(older: seq<Game>, newer: seq<Game>, userId: int)
    ensures GamesOf(older + newer, userId) == GamesOf(older, userId) + GamesOf(newer, userId)
  {
    FilterAppend(older, newer, (g: Game) => g.userId == userId);
  }

  /** Each game of the player is listed as often as it was saved; no other game is. */
  lemma GamesOfCount(games: seq<Game>, userId: int, g: Game)
    ensures multiset(GamesOf(games, userId))[g] == if g.userId == userId then multiset(games)[g] else 0
  {
    FilterCount(games, (g: Game) => g.userId == userId, g);
  }

  lemma MembersOfSubMultiset<T>(r: seq<T>, s: seq<T>)
    requires multiset(r) <= multiset(s)
    ensures forall x :: x in r ==> x in s
  {
    forall x | x in r
      ensures x in s
    {
      assert x in multiset(r);
    }
  }

  class Database {
    var users: seq<User>
    var games: seq<Game>
    var userStats: map<int, StatsRow>
    var userIdCounter: int
    var gameIdCounter: int

    /**
     * Ids are the counters' earlier values, so the `k`-th record has id `k`
     * and each counter is one past the last id; names are unique; every user,
     * and only a user, has a balanced statistics row under its own id.
     */
    ghost predicate Valid()
      reads this
    {
      && userIdCounter == |users| + 1
      && gameIdCounter == |games| + 1
      && (forall i :: 0 <= i < |users| ==> users[i].id == i + 1)
      && (forall i :: 0 <= i < |games| ==> games[i].id == i + 1)
      && (forall i, j :: 0 <= i < j < |users| ==> users[i].username != users[j].username)
      && (forall id :: id in userStats <==> 1 <= id <= |users|)
      && (forall id :: id in userStats ==> userStats[id].userId == id && Balanced(userStats[id]))
    }

    /** The store as the module starts it: empty maps, both counters at 1. */
    constructor ()
      ensures Valid()
      ensures users == [] && games == [] && userStats == map[]
      ensures userIdCounter == 1 && gameIdCounter == 1
    {
      users := [];
      games := [];
      userStats := map[];
      userIdCounter := 1;
      gameIdCounter := 1;
    }

    /** getUserByUsername: the user with this name, or none. */
    function UserByUsername(username: string): (r: Option<User>)
      reads this
      ensures r.None? <==> forall u :: u in users ==> u.username != username
      ensures r.Some? ==> r.value in users && r.value.username == username
    {
      FindUser(users, username)
    }

    /** getUserById: the user with this id, or none. */
    function UserById(id: int): (r: Option<User>)
      reads this
      requires Valid()
      ensures r.None? <==> forall u :: u in users ==> u.id != id
      ensures r.Some? ==> r.value in users && r.value.id == id
    {
      if 1 <= id <= |users| then Some(users[id - 1]) else None
    }

    /** getUserStats: the statistics row of this user, or none. */
    function StatsOf(userId: int): (r: Option<StatsRow>)
      reads this
      requires Valid()
      ensures r.Some? <==> UserById(userId).Some?
      ensures r.Some? ==> r.value.userId == userId && Balanced(r.value)
    {
      if userId in userStats then Some(userStats[userId]) else None
    }

    /**
     * getLastGames: games of that user only, as many as `slice(0, limit)`
     * keeps, newest first, and none older than a game of that user it leaves
     * out.
     */
    function LastGames(userId: int, limit: int := DEFAULT_LIMIT): (r: seq<Game>)
      reads this
      ensures forall g :: g in r ==> g in games && g.userId == userId
      ensures |r| == SliceEnd(|GamesOf(games, userId)|, limit)
      ensures Descending(r, CreatedAt)
      ensures forall x, y :: x in r && y in multiset(GamesOf(games, userId)) - multiset(r) ==> CreatedAt(x) >= CreatedAt(y)
    {
      var mine := GamesOf(games, userId);
      var r := Newest(mine, CreatedAt, limit);
      NewestFacts(mine, CreatedAt, limit);
      MembersOfSubMultiset(r, mine);
      r
    }

    /**
     * createUser: refuses a name already taken, leaving the store unchanged;
     * otherwise it appends a user with the next id, the given hash and the
     * clock value, and gives it a fresh statistics row.
     */
    method CreateUser(username: string, passwordHash: string, now: int) returns (r: Result<User, string>)
      requires Valid()
      modifies this
      ensures Valid()
      ensures (exists u :: u in old(users) && u.username == username) ==> r == Err(DUPLICATE_USERNAME) && unchanged(this)
      ensures (forall u :: u in old(users) ==> u.username != username) ==>
        && r == Ok(User(old(userIdCounter), username, passwordHash, now))
        && users == old(users) + [r.value]
        && userStats == old(userStats)[r.value.id := StatsRow(r.value.id, 0, 0, 0, 0, 0)]
        && userIdCounter == old(userIdCounter) + 1
        && games == old(games) && gameIdCounter == old(gameIdCounter)
      ensures r.Ok? ==> UserByUsername(username) == Some(r.value) && UserById(r.value.id) == Some(r.value)
    {
      for i := 0 to |users|
        invariant forall j :: 0 <= j < i ==> users[j].username != username
      {
        if users[i].username == username {
          return Err(DUPLICATE_USERNAME);
        }
      }
      var user := User(userIdCounter, username, passwordHash, now);
      userIdCounter := userIdCounter + 1;
      users := users + [user];
      userStats := userStats[user.id := StatsRow(user.id, 0, 0, 0, 0, 0)];
      r := Ok(user);
      assert users[|users| - 1] == user;
      assert UserById(user.id) == Some(user);
    }

    /**
     * createGame: appends a game with the next id and the clock value for any
     * user id, and records it in that user's statistics row if there is one.
     */
    method CreateGame(userId: int, won: bool, turns: int, movements: int, now: int)
      requires Valid()
      modifies this
      ensures Valid()
      ensures games == old(games) + [Game(old(gameIdCounter), userId, won, turns, movements, now)]
      ensures gameIdCounter == old(gameIdCounter) + 1
      ensures users == old(users) && userIdCounter == old(userIdCounter)
      ensures userId in old(userStats) ==> userStats == old(userStats)[userId := Record(old(userStats)[userId], won, turns, movements)]
      ensures userId !in old(userStats) ==> userStats == old(userStats)
    {
      var game := Game(gameIdCounter, userId, won, turns, movements, now);
      gameIdCounter := gameIdCounter + 1;
      games := games + [game];
      if userId in userStats {
        RecordCountsOneGame(userStats[userId], won, turns, movements);
        userStats := userStats[userId := Record(userStats[userId], won, turns, movements)];
      }
    }
  }

  /** With the default limit, at most ten games come back. */
  lemma DefaultLimitIsTen(db: Database, userId: int)
    ensures |db.LastGames(userId)| <= 10
    ensures |GamesOf(db.games, userId)| >= 10 ==> |db.LastGames(userId)| == 10
  {
  }
}
