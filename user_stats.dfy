/** The user_stats row of a user (src/models/user-stats.ts; the same
    statement is repeated in src/models/participations.ts). */
module UserStats {
  import opened Common
  import opened Store

  /** The table after `INSERT ... ON DUPLICATE KEY UPDATE user_id = user_id`:
      a missing row is created with the defaults, an existing row is kept. */
  function WithStats(stats: map<int, Stats>, userId: int): (r: map<int, Stats>)
    ensures userId in r
    ensures forall u :: u in stats ==> u in r && r[u] == stats[u]
    ensures forall u :: u in r ==> u in stats || u == userId
    ensures userId !in stats ==> r[userId] == DefaultStats
  {
    if userId in stats then stats else stats[userId := DefaultStats]
  }

  /** Ensuring the row twice is ensuring it once. */
  lemma EnsureIdempotent(stats: map<int, Stats>, userId: int)
    ensures WithStats(WithStats(stats, userId), userId) == WithStats(stats, userId)
  {
  }

  /** ensureUserStats. */
  method EnsureUserStats(db: Db, userId: int)
    modifies db`stats
    ensures db.stats == WithStats(old(db.stats), userId)
  {
    if userId !in db.stats {
      db.stats := db.stats[userId := DefaultStats];
    }
  }

  /** getUserStatsByUserId: the user's row, or null. */
  function GetUserStatsByUserId(stats: map<int, Stats>, userId: int): (r: Option<Stats>)
    ensures r.Some? <==> userId in stats
    ensures r.Some? ==> r.value == stats[userId]
  {
    if userId in stats then Some(stats[userId]) else None
  }

  /** After ensureUserStats the lookup finds a row, and it is the default
      row exactly when there was none before. */
  lemma LookupAfterEnsure(stats: map<int, Stats>, userId: int)
    ensures GetUserStatsByUserId(WithStats(stats, userId), userId)
            == Some(if userId in stats then stats[userId] else DefaultStats)
  {
  }
}
