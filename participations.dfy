/** Participation rows and the capped daily XP (src/models/participations.ts).
    XP is kept in integer tenths: `total_xp` is a one-decimal column and
    every award is a multiple of 0.1, so `ROUND(total_xp + x, 1)` is exact
    addition of tenths. */
module Participations {
  import opened Common
  import opened Calendar
  import opened Store

  /** `Math.min(0.5 * newStreakDays, 3.5)` in tenths. */
  function XpTodayTenths(streak: int): (x: int)
    ensures x <= 35
    ensures streak >= 7 ==> x == 35
    ensures streak >= 0 ==> x >= 0
  {
    if 5 * streak < 35 then 5 * streak else 35
  }

  /** The award grows with the streak, strictly up to a streak of 7, and
      not at all after it. */
  lemma XpGrowsToCap(s: int, t: int)
    requires s <= t
    ensures XpTodayTenths(s) <= XpTodayTenths(t)
    ensures s < t <= 7 ==> XpTodayTenths(s) < XpTodayTenths(t)
    ensures 7 <= s ==> XpTodayTenths(s) == XpTodayTenths(t)
  {
  }

  /** recordParticipation: one (user, question) row is inserted. */
  method RecordParticipation(db: Db, userId: int, questionId: int)
    modifies db`participations
    ensures db.participations == old(db.participations) + [Participation(userId, questionId)]
  {
    db.participations := db.participations + [Participation(userId, questionId)];
  }

  /** The table after applyStreakAndXp's UPDATE. */
  function StreakAndXp(stats: map<int, Stats>, userId: int, today: Date, newStreak: int): (r: map<int, Stats>)
    ensures r.Keys == stats.Keys
    ensures forall u :: u in stats && u != userId ==> r[u] == stats[u]
  {
    if userId in stats then
      stats[userId := stats[userId].(streakDays := newStreak,
                                     totalXpTenths := stats[userId].totalXpTenths + XpTodayTenths(newStreak),
                                     lastParticipation := Some(today))]
    else stats
  }

  /** applyStreakAndXp. */
  method ApplyStreakAndXp(db: Db, userId: int, today: Date, newStreak: int)
    modifies db`stats
    ensures db.stats == StreakAndXp(old(db.stats), userId, today, newStreak)
  {
    if userId in db.stats {
      var s := db.stats[userId];
      db.stats := db.stats[userId := s.(streakDays := newStreak,
                                        totalXpTenths := s.totalXpTenths + XpTodayTenths(newStreak),
                                        lastParticipation := Some(today))];
    }
  }

  /** The update sets the streak to the given value and the last date to
      today, adds the capped award to the XP (so XP never falls for a
      non-negative streak), and changes no other column. */
  lemma StreakAndXpEffect(stats: map<int, Stats>, userId: int, today: Date, newStreak: int)
    requires userId in stats && newStreak >= 0
    ensures var r := StreakAndXp(stats, userId, today, newStreak)[userId];
      r.streakDays == newStreak && r.lastParticipation == Some(today)
      && stats[userId].totalXpTenths <= r.totalXpTenths <= stats[userId].totalXpTenths + 35
      && r.(streakDays := stats[userId].streakDays, totalXpTenths := stats[userId].totalXpTenths,
            lastParticipation := stats[userId].lastParticipation) == stats[userId]
  {
  }
}
