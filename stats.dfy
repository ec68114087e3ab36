/**
 * lib/db/stats.ts: the in-memory list of finished games per user and the
 * summary computed from it. The module-level map becomes the field of one
 * `StatsStore` object. The floating-point averages of the summary are not
 * part of this model; the counts and the recent games are.
 */
module Stats {
  import opened Wrappers
  import opened Geometry
  import opened Types
  import opened Sorting

  /** How many recent games the summary lists. */
  const RECENT_GAMES: int := 10

  function Timestamp(g: GameStats): int
  {
    g.timestamp
  }

  predicate Won(g: GameStats)
  {
    g.won
  }

  predicate Lost(g: GameStats)
  {
    !g.won
  }

  /** Every game is counted exactly once, as won or as lost. */
  lemma {:induction false} WonAndLostPartition(games: seq<GameStats>)
    ensures |Filter(games, Won)| + |Filter(games, Lost)| == |games|
  {
    if games != [] {
      WonAndLostPartition(games[1..]);
    }
  }

  /**
   * The summary getUserStats builds from a non-empty list of games: the
   * totals and the ten most recent games, with an empty user name.
   */
  function Summary(userId: string, allGames: seq<GameStats>): (s: UserStats)
    requires allGames != []
    ensures s.userId == userId && s.username == ""
    ensures s.totalGames == |allGames|
    ensures s.wins == |Filter(allGames, Won)|
    ensures s.losses == |Filter(allGames, Lost)|
    ensures s.wins + s.losses == s.totalGames
    ensures |s.recentGames| == Min(RECENT_GAMES, |allGames|)
    ensures multiset(s.recentGames) <= multiset(allGames)
    ensures Descending(s.recentGames, Timestamp)
    ensures forall x, y :: x in s.recentGames && y in multiset(allGames) - multiset(s.recentGames) ==> Timestamp(x) >= Timestamp(y)
  {
    var wins := |Filter(allGames, Won)|;
    var losses := |allGames| - wins;
    var recentGames := Newest(allGames, Timestamp, RECENT_GAMES);
    WonAndLostPartition(allGames);
    NewestFacts(allGames, Timestamp, RECENT_GAMES);
    UserStats(userId, "", |allGames|, wins, losses, recentGames)
  }

  class StatsStore {
    var gameStats: map<string, seq<GameStats>>

    /** The store as the module starts it: no games for anybody. */
    constructor ()
      ensures gameStats == map[]
    {
      gameStats := map[];
    }

    /** The games stored for this user; an absent entry reads as no games. */
    function GamesOf(userId: string): seq<GameStats>
      reads this
    {
      if userId in gameStats then gameStats[userId] else []
    }

    /** saveGameStats: appends the record to its user's list; the other users' lists stay as they were. */
    method SaveGameStats(stats: GameStats)
      modifies this
      ensures GamesOf(stats.userId) == old(GamesOf(stats.userId)) + [stats]
      ensures forall u :: u != stats.userId ==> GamesOf(u) == old(GamesOf(u))
      ensures gameStats.Keys == old(gameStats.Keys) + {stats.userId}
    {
      var userStats := GamesOf(stats.userId);
      userStats := userStats + [stats];
      gameStats := gameStats[stats.userId := userStats];
    }

    /**
     * getUserStats: nothing for a user without games; otherwise the summary
     * of that user's games. Sorting for the recent games reorders the stored
     * list itself, newest first, so the call also leaves that user's list
     * sorted; the other lists stay as they were.
     */
    method GetUserStats(userId: string) returns (r: Option<UserStats>)
      modifies this
      ensures r.None? <==> old(GamesOf(userId)) == []
      ensures r.None? ==> gameStats == old(gameStats)
      ensures r.Some? ==> r.value == Summary(userId, old(GamesOf(userId)))
      ensures r.Some? ==> gameStats == old(gameStats)[userId := SortDescending(old(GamesOf(userId)), Timestamp)]
    {
      var allGames := GamesOf(userId);
      if |allGames| == 0 {
        return None;
      }
      var wins := |Filter(allGames, Won)|;
      var losses := |allGames| - wins;
      var sorted := SortDescending(allGames, Timestamp);
      gameStats := gameStats[userId := sorted];
      var recentGames := sorted[..Min(RECENT_GAMES, |sorted|)];
      r := Some(UserStats(userId, "", |allGames|, wins, losses, recentGames));
    }
  }

  /**
   * Reading the summary keeps every user's games: the stored list of the
   * user asked about is a reordering of the old one, now newest first.
   */
  lemma SortedListKeepsGames(games: seq<GameStats>)
    ensures multiset(SortDescending(games, Timestamp)) == multiset(games)
    ensures Descending(SortDescending(games, Timestamp), Timestamp)
    ensures forall t :: WithKey(SortDescending(games, Timestamp), Timestamp, t) == WithKey(games, Timestamp, t)
  {
    SortIsDescending(games, Timestamp);
    forall t
      ensures WithKey(SortDescending(games, Timestamp), Timestamp, t) == WithKey(games, Timestamp, t)
    {
      SortIsStable(games, Timestamp, t);
    }
  }
}
