/** The alternative streak policy of src/middlewares/streak.middleware.ts
    (not mounted on any route): fixed daily XP of 5 or 3 points, a reset to
    1 after a missed day with no grace left, and a flat 10 points on every
    call.  XP is in tenths, as in the Participations module. */
module StreakMw {
  import opened Common
  import opened Calendar
  import opened Store
  import opened UserStats

  /** What the branches decide: the streak and grace to write, the daily XP
      in tenths, and whether the comeback path was taken. */
  datatype Step = Step(streak: int, grace: int, dailyXpTenths: int, comeback: bool)

  function AnswerStep(streak: int, grace: int, last: Option<Date>, today: Date): Step
  {
    if last == Some(today) then Step(streak, grace, 0, false)
    else if last.Some? then
      var gap := DaysBetween(last.value, today);
      if gap == 1 then Step(streak + 1, grace, 50, false)
      else if gap > 1 then
        if grace > 0 then Step(streak + 1, grace - 1, 50, false)
        else Step(1, grace, 30, true)
      else Step(streak, grace, 0, false)
    else Step(1, grace, 50, false)
  }

  /** The step in calendar terms: the same day earns nothing; a first
      answer or the next day earns 5 points, a longer gap 5 points with a
      grace token or 3 points and a streak of 1 without one; a last date in
      the future earns nothing and keeps the streak. */
  lemma AnswerStepCases(streak: int, grace: int, last: Option<Date>, today: Date)
    requires grace >= 0 && ValidDate(today) && (last.Some? ==> ValidDate(last.value))
    ensures var st := AnswerStep(streak, grace, last, today);
      0 <= st.grace <= grace && st.dailyXpTenths in {0, 30, 50}
      && (last == Some(today) ==> st == Step(streak, grace, 0, false))
      && (last.None? ==> st == Step(1, grace, 50, false))
      && (last.Some? && today == NextDay(last.value) ==> st == Step(streak + 1, grace, 50, false))
      && (last.Some? && Before(last.value, today) && today != NextDay(last.value) ==>
            st == if grace > 0 then Step(streak + 1, grace - 1, 50, false) else Step(1, 0, 30, true))
      && (last.Some? && Before(today, last.value) ==> st == Step(streak, grace, 0, false))
  {
    if last.Some? {
      GapMeaning(last.value, today);
    }
  }

  /** The user's row after the three UPDATEs: the stepped streak and grace,
      today as the last date, and the daily XP plus 10 points. */
  function AnswerStats(stats: map<int, Stats>, userId: int, today: Date): (r: map<int, Stats>)
    ensures r.Keys == stats.Keys + {userId}
    ensures forall u :: u in stats && u != userId ==> r[u] == stats[u]
  {
    var s0 := WithStats(stats, userId);
    var st := s0[userId];
    var step := AnswerStep(st.streakDays, st.graceTokens, st.lastParticipation, today);
    s0[userId := st.(streakDays := step.streak, graceTokens := step.grace, lastParticipation := Some(today),
                     totalXpTenths := st.totalXpTenths + step.dailyXpTenths + 100)]
  }

  /** `!answerId`: no id, or id 0. */
  predicate Falsy(id: Option<int>) {
    id.None? || id.value == 0
  }

  /** applyStreakOnAnswerMw.  The `!stats` branch cannot be taken right
      after ensureUserStats and is not modelled. */
  method ApplyStreakOnAnswerMw(db: Db, createdAnswerId: Option<int>, user: Option<int>, today: Date)
    returns (o: Outcome)
    modifies db`stats
    ensures o == Next
    ensures db.stats == if Falsy(createdAnswerId) || user.None? then old(db.stats)
                        else AnswerStats(old(db.stats), user.value, today)
  {
    if Falsy(createdAnswerId) || user.None? {
      return Next;
    }
    var userId := user.value;
    EnsureUserStats(db, userId);
    var stats := db.stats[userId];
    var last := stats.lastParticipation;
    var newStreak := stats.streakDays;
    var grace := stats.graceTokens;
    var dailyXp := 0;
    var usedComeback := false;
    if last == Some(today) {
      dailyXp := 0;
    } else if last.Some? {
      var gap := DaysBetween(last.value, today);
      if gap == 1 {
        newStreak := newStreak + 1;
        dailyXp := 50;
      } else if gap > 1 {
        if grace > 0 {
          grace := grace - 1;
          newStreak := newStreak + 1;
          dailyXp := 50;
        } else {
          usedComeback := true;
          newStreak := 1;
          dailyXp := 30;
        }
      }
    } else {
      newStreak := 1;
      dailyXp := 50;
    }
    var s := db.stats[userId];
    db.stats := db.stats[userId := s.(streakDays := newStreak, graceTokens := grace,
                                      lastParticipation := if last == Some(today) then last else Some(today),
                                      totalXpTenths := s.totalXpTenths + dailyXp)];
    db.stats := db.stats[userId := db.stats[userId].(totalXpTenths := db.stats[userId].totalXpTenths + 100)];
    if usedComeback {
      db.stats := db.stats[userId := db.stats[userId].(graceTokens := db.stats[userId].graceTokens)];
    }
    return Next;
  }

  /** Every call that reaches the update gains the daily XP plus 10 points,
      so between 10 and 15 points, and always ends with today as the last
      date. */
  lemma AnswerGain(stats: map<int, Stats>, userId: int, today: Date)
    requires userId in stats ==> stats[userId].graceTokens >= 0
    requires ValidDate(today)
    requires userId in stats && stats[userId].lastParticipation.Some? ==> ValidDate(stats[userId].lastParticipation.value)
    ensures var before := WithStats(stats, userId)[userId];
      var after := AnswerStats(stats, userId, today)[userId];
      before.totalXpTenths + 100 <= after.totalXpTenths <= before.totalXpTenths + 150
      && after.lastParticipation == Some(today) && 0 <= after.graceTokens <= before.graceTokens
  {
    var st := WithStats(stats, userId)[userId];
    AnswerStepCases(st.streakDays, st.graceTokens, st.lastParticipation, today);
  }
}
