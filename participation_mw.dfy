/** The participation middlewares wired into the answer route
    (src/middlewares/participation.middleware.ts): the duplicate guard, and
    the streak with grace tokens and a halving reset.  Stored dates are the
    `YYYY-MM-DD` values of the DATE column, so `last === today` is date
    equality and `daysBetween` is `Calendar.DaysBetween`. */
module ParticipationMw {
  import opened Common
  import opened Calendar
  import opened Store
  import opened UserStats
  import opened Participations

  predicate Participated(ps: seq<Participation>, userId: int, questionId: int) {
    exists i :: 0 <= i < |ps| && ps[i] == Participation(userId, questionId)
  }

  /** preventDuplicateParticipation: 409 once the user took part in the
      question, else on to the next handler. */
  function PreventDuplicateParticipation(ps: seq<Participation>, userId: int, questionId: int): (r: Outcome)
    ensures r == Next <==> !Participated(ps, userId, questionId)
    ensures r != Next ==> r == Respond(409, "Already participated in this question")
  {
    if Participated(ps, userId, questionId) then Respond(409, "Already participated in this question")
    else Next
  }

  /** Once a participation is recorded, the guard turns the user away from
      the same question, and it still lets them through elsewhere. */
  lemma GuardAfterRecord(ps: seq<Participation>, userId: int, questionId: int, other: int)
    requires !Participated(ps, userId, other) && other != questionId
    ensures PreventDuplicateParticipation(ps + [Participation(userId, questionId)], userId, questionId) != Next
    ensures PreventDuplicateParticipation(ps + [Participation(userId, questionId)], userId, other) == Next
  {
    var ps' := ps + [Participation(userId, questionId)];
    assert ps'[|ps|] == Participation(userId, questionId);
    forall i | 0 <= i < |ps'| ensures ps'[i] != Participation(userId, other) {
      if i < |ps| {
        assert ps'[i] == ps[i];
      }
    }
  }

  /** The streak and grace that recordParticipationMw writes on a day other
      than the last participation: a first participation starts at 1, the
      next day adds one, a longer gap spends a grace token or else halves the
      streak, and a last date in the future changes nothing; the streak is
      then raised to at least 1. */
  function StreakStep(streak: int, grace: int, last: Option<Date>, today: Date): (int, int)
  {
    var (s, g) :=
      if last.None? then (1, grace)
      else
        var gap := DaysBetween(last.value, today);
        if gap == 1 then (streak + 1, grace)
        else if gap > 1 then
          if grace > 0 then (streak + 1, grace - 1)
          else (if streak / 2 != 0 then streak / 2 else 1, grace)
        else (streak, grace);
    (if s < 1 then 1 else s, g)
  }

  /** The step in calendar terms, for a non-negative streak and grace. */
  lemma StreakStepCases(streak: int, grace: int, last: Option<Date>, today: Date)
    requires streak >= 0 && grace >= 0 && ValidDate(today)
    requires last.Some? ==> ValidDate(last.value) && last.value != today
    ensures var (s, g) := StreakStep(streak, grace, last, today);
      s >= 1 && 0 <= g <= grace
      && (last.None? ==> s == 1 && g == grace)
      && (last.Some? && today == NextDay(last.value) ==> s == streak + 1 && g == grace)
      && (last.Some? && Before(last.value, today) && today != NextDay(last.value) ==>
            if grace > 0 then s == streak + 1 && g == grace - 1
            else g == grace && (if streak >= 2 then 2 * s <= streak < 2 * s + 2 else s == 1))
      && (last.Some? && Before(today, last.value) ==> g == grace && s == (if streak >= 1 then streak else 1))
  {
    if last.Some? {
      GapMeaning(last.value, today);
    }
  }

  predicate StatsInRange(st: Stats) {
    st.streakDays >= 0 && st.graceTokens >= 0 && st.totalXpTenths >= 0
  }

  /** The user_stats table after recordParticipationMw. */
  function ParticipationStats(stats: map<int, Stats>, userId: int, today: Date): (r: map<int, Stats>)
    ensures r.Keys == stats.Keys + {userId}
    ensures forall u :: u in stats && u != userId ==> r[u] == stats[u]
  {
    var s0 := WithStats(stats, userId);
    var st := s0[userId];
    if st.lastParticipation == Some(today) then s0
    else
      var (streak, grace) := StreakStep(st.streakDays, st.graceTokens, st.lastParticipation, today);
      var s1 := StreakAndXp(s0, userId, today, streak);
      if st.graceTokens != grace then s1[userId := s1[userId].(graceTokens := grace)] else s1
  }

  /** recordParticipationMw: the stats row is ensured and the participation
      inserted before anything else; the streak logic then runs unless the
      user already took part today. */
  method RecordParticipationMw(db: Db, userId: int, questionId: int, today: Date) returns (o: Outcome)
    modifies db`stats, db`participations
    ensures o == Next
    ensures db.participations == old(db.participations) + [Participation(userId, questionId)]
    ensures db.stats == ParticipationStats(old(db.stats), userId, today)
  {
    EnsureUserStats(db, userId);
    RecordParticipation(db, userId, questionId);
    var stats := db.stats[userId];
    var last := stats.lastParticipation;
    var newStreak := stats.streakDays;
    var grace := stats.graceTokens;
    if last == Some(today) {
      return Next;
    }
    if last.None? {
      newStreak := 1;
    } else {
      var gap := DaysBetween(last.value, today);
      if gap == 1 {
        newStreak := newStreak + 1;
      } else if gap > 1 {
        if grace > 0 {
          grace := grace - 1;
          newStreak := newStreak + 1;
        } else {
          newStreak := if newStreak / 2 != 0 then newStreak / 2 else 1;
        }
      }
    }
    if newStreak < 1 {
      newStreak := 1;
    }
    ApplyStreakAndXp(db, userId, today, newStreak);
    if stats.graceTokens != grace {
      db.stats := db.stats[userId := db.stats[userId].(graceTokens := grace)];
    }
    return Next;
  }

  /** The whole effect on the user's row: unchanged (beyond creation) when
      they already took part today; otherwise the stepped streak and grace,
      the capped award added to the XP, today as the last date, and nothing
      else.  Rows in range stay in range. */
  lemma ParticipationEffect(stats: map<int, Stats>, userId: int, today: Date)
    requires userId in stats ==> StatsInRange(stats[userId])
    ensures var st := WithStats(stats, userId)[userId];
      var r := ParticipationStats(stats, userId, today)[userId];
      StatsInRange(r)
      && (st.lastParticipation == Some(today) ==> r == st)
      && (st.lastParticipation != Some(today) ==>
            var (s, g) := StreakStep(st.streakDays, st.graceTokens, st.lastParticipation, today);
            r == st.(streakDays := s, graceTokens := g, lastParticipation := Some(today),
                     totalXpTenths := st.totalXpTenths + XpTodayTenths(s)))
  {
    var st := WithStats(stats, userId)[userId];
    if st.lastParticipation != Some(today) {
      var (s, g) := StreakStep(st.streakDays, st.graceTokens, st.lastParticipation, today);
      assert s >= 1 && 0 <= g;
    }
  }
}
