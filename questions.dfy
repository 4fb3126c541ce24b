/** The question lifecycle (src/models/questions.ts): creating questions,
    finding the active one and the next one due, the daily rollover that
    settles and closes the active question and activates the next one due,
    and the next free publication date.  A question's id is its position in
    `Db.questions` plus one. */
module Questions {
  import opened Common
  import opened Strings
  import opened Calendar
  import opened Store
  import Power

  /** A DATE column value: a calendar day with a four-digit year. */
  predicate StoredDate(d: Date) {
    ValidDate(d) && 0 <= d.year <= 9999
  }

  predicate StoredDates(qs: seq<Question>) {
    forall i :: 0 <= i < |qs| ==> StoredDate(qs[i].published)
  }

  predicate HasActive(qs: seq<Question>) {
    exists i :: 0 <= i < |qs| && qs[i].status == Active
  }

  /** At most one question is active: the state the rollover keeps. */
  predicate AtMostOneActive(qs: seq<Question>) {
    forall i, j :: 0 <= i < |qs| && 0 <= j < |qs| && qs[i].status == Active && qs[j].status == Active ==> i == j
  }

  /** getActiveQuestion: the index of the first row of
      `WHERE status = 'active' ORDER BY published_date DESC, id DESC`, that
      is, the active question with the latest date, the highest id among
      those. */
  function LatestActive(qs: seq<Question>): (r: Option<nat>)
    ensures r.Some? <==> HasActive(qs)
    ensures r.Some? ==> r.value < |qs| && qs[r.value].status == Active
    ensures r.Some? ==> forall j :: 0 <= j < |qs| && qs[j].status == Active ==>
      Before(qs[j].published, qs[r.value].published) || (qs[j].published == qs[r.value].published && j <= r.value)
  {
    if qs == [] then None
    else
      var n := |qs| - 1;
      var rest := LatestActive(qs[..n]);
      assert forall j :: 0 <= j < n ==> qs[..n][j] == qs[j];
      if qs[n].status == Active && (rest.None? || AtOrBefore(qs[rest.value].published, qs[n].published))
      then Some(n)
      else rest
  }

  /** getNextDueQuestion: the index of the first row of
      `WHERE status = 'scheduled' AND published_date <= today
       ORDER BY published_date ASC, id ASC`. */
  function NextDue(qs: seq<Question>, today: Date): (r: Option<nat>)
    ensures r.Some? <==> exists i :: 0 <= i < |qs| && qs[i].status == Scheduled && AtOrBefore(qs[i].published, today)
    ensures r.Some? ==> r.value < |qs| && qs[r.value].status == Scheduled && AtOrBefore(qs[r.value].published, today)
    ensures r.Some? ==> forall j :: 0 <= j < |qs| && qs[j].status == Scheduled && AtOrBefore(qs[j].published, today) ==>
      Before(qs[r.value].published, qs[j].published) || (qs[j].published == qs[r.value].published && r.value <= j)
  {
    if qs == [] then None
    else
      var n := |qs| - 1;
      var rest := NextDue(qs[..n], today);
      assert forall j :: 0 <= j < n ==> qs[..n][j] == qs[j];
      if qs[n].status == Scheduled && AtOrBefore(qs[n].published, today)
         && (rest.None? || Before(qs[n].published, qs[rest.value].published))
      then Some(n)
      else rest
  }

  /** getById: the question with that id, if any. */
  function GetById(qs: seq<Question>, id: int): (r: Option<Question>)
    ensures r.Some? <==> 1 <= id <= |qs|
    ensures r.Some? ==> r.value == qs[id - 1]
  {
    if 1 <= id <= |qs| then Some(qs[id - 1]) else None
  }

  /** createQuestion: the row is inserted with status 'scheduled' unless the
      caller gives one; the result is the new id. */
  method CreateQuestion(db: Db, text: string, optionA: string, optionB: string, published: Date, status: Option<Status>)
    returns (id: int)
    modifies db`questions
    ensures db.questions == old(db.questions) + [Question(text, optionA, optionB, published,
                                                         if status.Some? then status.value else Scheduled)]
    ensures id == |db.questions| && GetById(db.questions, id).Some?
  {
    var s := if status.Some? then status.value else Scheduled;
    db.questions := db.questions + [Question(text, optionA, optionB, published, s)];
    id := |db.questions|;
  }

  /** `UPDATE questions SET status = ? WHERE id = ?` (activateQuestion,
      closeQuestion): no row with that id, no change. */
  function SetStatus(qs: seq<Question>, id: int, s: Status): (r: seq<Question>)
    ensures |r| == |qs|
    ensures forall k :: 0 <= k < |qs| ==> r[k] == if k == id - 1 then qs[k].(status := s) else qs[k]
  {
    if 1 <= id <= |qs| then qs[id - 1 := qs[id - 1].(status := s)] else qs
  }

  method ActivateQuestion(db: Db, id: int)
    modifies db`questions
    ensures db.questions == SetStatus(old(db.questions), id, Active)
  {
    if 1 <= id <= |db.questions| {
      db.questions := db.questions[id - 1 := db.questions[id - 1].(status := Active)];
    }
  }

  method CloseQuestion(db: Db, id: int)
    modifies db`questions
    ensures db.questions == SetStatus(old(db.questions), id, Closed)
  {
    if 1 <= id <= |db.questions| {
      db.questions := db.questions[id - 1 := db.questions[id - 1].(status := Closed)];
    }
  }

  /** The questions after closeActiveAndSettle: the latest active one is
      closed (it is still active when the guarded UPDATE runs). */
  function CloseLatest(qs: seq<Question>): (r: seq<Question>)
    ensures |r| == |qs|
  {
    match LatestActive(qs)
    case None => qs
    case Some(i) => qs[i := qs[i].(status := Closed)]
  }

  /** The stats after closeActiveAndSettle: the latest active question's
      power settlement, with `aFirst` fixing the order of its side totals. */
  function SettleLatest(qs: seq<Question>, answers: seq<Answer>, stats: map<int, Stats>, aFirst: bool): map<int, Stats>
  {
    match LatestActive(qs)
    case None => stats
    case Some(i) =>
      Power.ApplyPower(stats, Power.Participants(answers, i + 1), Power.Majority(answers, i + 1, aFirst))
  }

  /** closeActiveAndSettle. */
  method CloseActiveAndSettle(db: Db, aFirst: bool)
    modifies db`questions, db`stats
    ensures db.questions == CloseLatest(old(db.questions))
    ensures db.stats == SettleLatest(old(db.questions), db.answers, old(db.stats), aFirst)
  {
    var qs := db.questions;
    var active := LatestActive(qs);
    if active.None? {
      return;
    }
    var i := active.value;
    var _ := Power.SettleQuestionPower(db, i + 1, aFirst);
    assert db.questions == qs;
    if qs[i].status == Active {
      db.questions := qs[i := qs[i].(status := Closed)];
    }
  }

  /** The questions after activateNextDue. */
  function Rollover(qs: seq<Question>, today: Date): (r: seq<Question>)
    ensures |r| == |qs|
  {
    var closed := CloseLatest(qs);
    match NextDue(closed, today)
    case None => closed
    case Some(k) => closed[k := closed[k].(status := Active)]
  }

  /** activateNextDue: settle and close the active question, then activate
      the earliest question due by today. */
  method ActivateNextDue(db: Db, today: Date, aFirst: bool)
    modifies db`questions, db`stats
    ensures db.questions == Rollover(old(db.questions), today)
    ensures db.stats == SettleLatest(old(db.questions), db.answers, old(db.stats), aFirst)
  {
    CloseActiveAndSettle(db, aFirst);
    var next := NextDue(db.questions, today);
    if next.None? {
      return;
    }
    ActivateQuestion(db, next.value + 1);
  }

  /** Closing the latest active question leaves none active when at most one
      was. */
  lemma CloseLatestLeavesNone(qs: seq<Question>)
    requires AtMostOneActive(qs)
    ensures !HasActive(CloseLatest(qs))
  {
    var r := CloseLatest(qs);
    forall k | 0 <= k < |r| ensures r[k].status != Active {
      if LatestActive(qs).Some? {
        var i := LatestActive(qs).value;
        if k != i {
          assert r[k] == qs[k];
        }
      }
    }
  }

  /** The rollover keeps at most one question active; the active question
      afterwards, if any, is the earliest one due by today; and the only
      changes are Active to Closed and Scheduled (due by today) to Active. */
  lemma RolloverProperties(qs: seq<Question>, today: Date)
    requires AtMostOneActive(qs)
    ensures AtMostOneActive(Rollover(qs, today))
    ensures LatestActive(Rollover(qs, today)) == NextDue(CloseLatest(qs), today)
    ensures forall k :: 0 <= k < |qs| ==>
      var (o, n) := (qs[k], Rollover(qs, today)[k]);
      n == o
      || (o.status == Active && n == o.(status := Closed))
      || (o.status == Scheduled && AtOrBefore(o.published, today) && n == o.(status := Active))
  {
    var closed := CloseLatest(qs);
    var r := Rollover(qs, today);
    CloseLatestLeavesNone(qs);
    match NextDue(closed, today)
    case None =>
      assert !HasActive(r);
    case Some(k) =>
      forall j | 0 <= j < |r| && j != k ensures r[j].status != Active {
        assert r[j] == closed[j];
      }
      assert r[k].status == Active;
      assert HasActive(r);
  }

  /** The text of a stored date, as `toIsoDate` sees it, is its own ten
      characters, and it orders the way the dates do. */
  lemma StaleText(published: Date, today: Date)
    requires StoredDate(published) && StoredDate(today)
    ensures ToIsoDate(FormatIso(published)) == FormatIso(published) != ""
    ensures LexLess(ToIsoDate(FormatIso(published)), FormatIso(today)) <==> Before(published, today)
  {
    IsoTextOrder(published, today);
  }

  /** The active question is stale: its date text sorts before today's. */
  predicate Stale(q: Question, today: Date)
    requires StoredDate(q.published) && StoredDate(today)
  {
    var published := ToIsoDate(FormatIso(q.published));
    published != "" && LexLess(published, FormatIso(today))
  }

  /** getOrActivateActive runs the rollover when no question is active or
      the active one is from an earlier day. */
  predicate NeedsRollover(qs: seq<Question>, today: Date)
    requires StoredDates(qs) && StoredDate(today)
  {
    match LatestActive(qs)
    case None => true
    case Some(i) => Stale(qs[i], today)
  }

  /** getOrActivateActive: the active question of today, rolling over
      first when there is none or it is stale. */
  method GetOrActivateActive(db: Db, today: Date, aFirst: bool) returns (r: Option<nat>)
    requires StoredDates(db.questions) && StoredDate(today)
    modifies db`questions, db`stats
    ensures db.questions == if NeedsRollover(old(db.questions), today) then Rollover(old(db.questions), today)
                            else old(db.questions)
    ensures db.stats == if NeedsRollover(old(db.questions), today)
                        then SettleLatest(old(db.questions), db.answers, old(db.stats), aFirst)
                        else old(db.stats)
    ensures r == LatestActive(db.questions)
  {
    var current := LatestActive(db.questions);
    if current.Some? {
      var published := ToIsoDate(FormatIso(db.questions[current.value].published));
      if published != "" && LexLess(published, FormatIso(today)) {
        ActivateNextDue(db, today, aFirst);
        r := LatestActive(db.questions);
        return;
      }
      r := current;
      return;
    }
    ActivateNextDue(db, today, aFirst);
    r := LatestActive(db.questions);
  }

  /** The stale test is the calendar order; after getOrActivateActive the
      question it returns is either the current one, not from an earlier
      day, or the earliest one due once the old one is closed. */
  lemma GetOrActivateOutcome(qs: seq<Question>, today: Date)
    requires StoredDates(qs) && StoredDate(today) && AtMostOneActive(qs)
    ensures NeedsRollover(qs, today) <==>
      (LatestActive(qs).None? || Before(qs[LatestActive(qs).value].published, today))
    ensures NeedsRollover(qs, today) ==>
      LatestActive(Rollover(qs, today)) == NextDue(CloseLatest(qs), today)
      && AtMostOneActive(Rollover(qs, today))
    ensures !NeedsRollover(qs, today) ==>
      AtOrBefore(today, qs[LatestActive(qs).value].published)
  {
    if LatestActive(qs).Some? {
      StaleText(qs[LatestActive(qs).value].published, today);
    }
    RolloverProperties(qs, today);
  }

  /** The latest date on or after `from`, if any question has one. */
  function MaxFrom(qs: seq<Question>, from: Date): (r: Option<Date>)
    ensures r.Some? <==> exists i :: 0 <= i < |qs| && AtOrBefore(from, qs[i].published)
    ensures r.Some? ==> AtOrBefore(from, r.value) && exists i :: 0 <= i < |qs| && qs[i].published == r.value
    ensures r.Some? ==> forall i :: 0 <= i < |qs| && AtOrBefore(from, qs[i].published) ==> AtOrBefore(qs[i].published, r.value)
  {
    if qs == [] then None
    else
      var n := |qs| - 1;
      var rest := MaxFrom(qs[..n], from);
      assert forall j :: 0 <= j < n ==> qs[..n][j] == qs[j];
      var d := qs[n].published;
      if AtOrBefore(from, d) && (rest.None? || Before(rest.value, d)) then Some(d)
      else rest
  }

  /** getNextPublishedDate: tomorrow (UTC) when no question is dated
      tomorrow or later, else the day after the latest such date.  MySQL's
      DATE_ADD past 9999-12-31 is NULL, and IFNULL then gives tomorrow. */
  function NextPublishedDay(qs: seq<Question>, now: Date): (r: Date)
    requires ClockDate(now) && StoredDates(qs)
  {
    var tomorrow := NextDay(now);
    match MaxFrom(qs, tomorrow)
    case None => tomorrow
    case Some(m) => if m == Date(9999, 12, 31) then tomorrow else NextDay(m)
  }

  /** The date text getNextPublishedDate returns. */
  function NextPublishedDate(qs: seq<Question>, now: Date): (r: string)
    requires ClockDate(now) && StoredDates(qs)
    ensures |r| == 10
  {
    var tomorrow := NextDay(now);
    match MaxFrom(qs, tomorrow)
    case None => TomorrowIso(now)
    case Some(m) => if m == Date(9999, 12, 31) then TomorrowIso(now) else
      assert StoredDate(m) by { var i :| 0 <= i < |qs| && qs[i].published == m; }
      FormatIso(NextDay(m))
  }

  /** The next publication date is tomorrow or later and, short of the end
      of the DATE range, after every question dated tomorrow or later, so a
      question scheduled on it takes a free day; its text is that date's. */
  lemma NextPublishedProperties(qs: seq<Question>, now: Date)
    requires ClockDate(now) && StoredDates(qs) && NextDay(now).year <= 9999
    ensures AtOrBefore(NextDay(now), NextPublishedDay(qs, now))
    ensures MaxFrom(qs, NextDay(now)) != Some(Date(9999, 12, 31)) ==>
      forall i :: 0 <= i < |qs| && AtOrBefore(NextDay(now), qs[i].published) ==>
        Before(qs[i].published, NextPublishedDay(qs, now))
    ensures NextPublishedDate(qs, now) == FormatIso(NextPublishedDay(qs, now))
  {
    NextPublishedAfter(qs, now);
    NextPublishedText(qs, now);
  }

  lemma NextPublishedAfter(qs: seq<Question>, now: Date)
    requires ClockDate(now) && StoredDates(qs)
    ensures AtOrBefore(NextDay(now), NextPublishedDay(qs, now))
    ensures MaxFrom(qs, NextDay(now)) != Some(Date(9999, 12, 31)) ==>
      forall i :: 0 <= i < |qs| && AtOrBefore(NextDay(now), qs[i].published) ==>
        Before(qs[i].published, NextPublishedDay(qs, now))
  {
    var t := NextDay(now);
    var m := MaxFrom(qs, t);
    if m.Some? && m.value != Date(9999, 12, 31) {
      var i :| 0 <= i < |qs| && qs[i].published == m.value;
      assert StoredDate(m.value);
      var n := NextDay(m.value);
      assert NextPublishedDay(qs, now) == n;
      forall j | 0 <= j < |qs| && AtOrBefore(t, qs[j].published)
        ensures Before(qs[j].published, n)
      {
        BeforeTransitive(qs[j].published, m.value, n);
      }
      BeforeTransitive(t, m.value, n);
    }
  }

  lemma NextPublishedText(qs: seq<Question>, now: Date)
    requires ClockDate(now) && StoredDates(qs) && NextDay(now).year <= 9999
    ensures NextPublishedDate(qs, now) == FormatIso(NextPublishedDay(qs, now))
  {
    var m := MaxFrom(qs, NextDay(now));
    if m.None? || m.value == Date(9999, 12, 31) {
      TomorrowIsNextDay(now);
    }
  }

  /** Calendar order is transitive, through an equal or earlier middle. */
  lemma BeforeTransitive(a: Date, b: Date, c: Date)
    requires AtOrBefore(a, b) && Before(b, c)
    ensures Before(a, c)
  {
  }
}
