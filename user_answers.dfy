/** attachAnonAnswersAndParticipations (src/helpers/userAnswers.ts): after
    sign-in, the anonymous answers sent from the client's IP address become
    the user's, and the user gets a participation row for every question
    they now have an answer on.  The IP address is a parameter (the helper
    it comes from is not part of this model). */
module UserAnswers {
  import opened Common
  import opened Store
  import opened UserStats
  import opened Participations
  import opened ParticipationMw

  /** `UPDATE answers SET user_id = ? WHERE user_id IS NULL AND ip_address = ?`. */
  function Claim(answers: seq<Answer>, userId: int, ip: string): (r: seq<Answer>)
    ensures |r| == |answers|
    ensures forall i :: 0 <= i < |answers| ==>
      r[i] == if answers[i].userId.None? && answers[i].ipAddress == Some(ip)
              then answers[i].(userId := Some(userId)) else answers[i]
  {
    seq(|answers|, i requires 0 <= i < |answers| =>
      if answers[i].userId.None? && answers[i].ipAddress == Some(ip) then answers[i].(userId := Some(userId))
      else answers[i])
  }

  predicate Owns(answers: seq<Answer>, userId: int, questionId: int) {
    exists i :: 0 <= i < |answers| && answers[i].userId == Some(userId) && answers[i].questionId == questionId
  }

  /** The `SELECT DISTINCT a.question_id ... LEFT JOIN participations ...
      WHERE p.id IS NULL`: every question the user has an answer on but no
      participation in, once. */
  function MissingQuestions(answers: seq<Answer>, ps: seq<Participation>, userId: int): (r: seq<int>)
    ensures forall i, j :: 0 <= i < j < |r| ==> r[i] != r[j]
    ensures forall q :: q in r <==> Owns(answers, userId, q) && !Participated(ps, userId, q)
  {
    if answers == [] then []
    else
      var n := |answers| - 1;
      var rest := MissingQuestions(answers[..n], ps, userId);
      var a := answers[n];
      OwnsSplit(answers, userId);
      if a.userId == Some(userId) && !Participated(ps, userId, a.questionId) && a.questionId !in rest
      then rest + [a.questionId]
      else rest
  }

  lemma OwnsSplit(answers: seq<Answer>, userId: int)
    requires answers != []
    ensures forall q :: Owns(answers, userId, q) <==>
      Owns(answers[..|answers| - 1], userId, q)
      || (answers[|answers| - 1].userId == Some(userId) && answers[|answers| - 1].questionId == q)
  {
    var init, last := answers[..|answers| - 1], answers[|answers| - 1];
    forall q | Owns(answers, userId, q)
      ensures Owns(init, userId, q) || (last.userId == Some(userId) && last.questionId == q)
    {
      var i :| 0 <= i < |answers| && answers[i].userId == Some(userId) && answers[i].questionId == q;
      if i < |init| {
        assert init[i] == answers[i];
      }
    }
    forall q | Owns(init, userId, q) ensures Owns(answers, userId, q) {
      var i :| 0 <= i < |init| && init[i].userId == Some(userId) && init[i].questionId == q;
      assert answers[i] == init[i];
    }
  }

  /** The participation rows the loop inserts, one per missing question. */
  function Backfill(userId: int, qs: seq<int>): (r: seq<Participation>)
    ensures |r| == |qs|
    ensures forall k :: 0 <= k < |qs| ==> r[k] == Participation(userId, qs[k])
  {
    seq(|qs|, k requires 0 <= k < |qs| => Participation(userId, qs[k]))
  }

  /** attachAnonAnswersAndParticipations.  No IP (absent or empty): nothing
      happens. */
  method AttachAnonAnswersAndParticipations(db: Db, userId: int, ip: Option<string>)
    modifies db`answers, db`stats, db`participations
    ensures ip.None? || ip.value == "" ==>
      db.answers == old(db.answers) && db.stats == old(db.stats) && db.participations == old(db.participations)
    ensures ip.Some? && ip.value != "" ==>
      db.answers == Claim(old(db.answers), userId, ip.value)
      && db.stats == WithStats(old(db.stats), userId)
      && db.participations == old(db.participations)
         + Backfill(userId, MissingQuestions(db.answers, old(db.participations), userId))
  {
    if ip.None? || ip.value == "" {
      return;
    }
    db.answers := Claim(db.answers, userId, ip.value);
    EnsureUserStats(db, userId);
    var rows := MissingQuestions(db.answers, db.participations, userId);
    ghost var before, claimed, stats := db.participations, db.answers, db.stats;
    var i := 0;
    while i < |rows|
      invariant 0 <= i <= |rows|
      invariant db.answers == claimed && db.stats == stats
      invariant db.participations == before + Backfill(userId, rows[..i])
    {
      RecordParticipation(db, userId, rows[i]);
      assert Backfill(userId, rows[..i + 1]) == Backfill(userId, rows[..i]) + [Participation(userId, rows[i])];
      i := i + 1;
    }
    assert rows[..i] == rows;
  }

  /** Afterwards the user has a participation in every question they own an
      answer on, and a second call finds nothing to claim and nothing to
      insert. */
  lemma AttachComplete(answers: seq<Answer>, ps: seq<Participation>, userId: int, ip: string)
    ensures var answers' := Claim(answers, userId, ip);
      var ps' := ps + Backfill(userId, MissingQuestions(answers', ps, userId));
      (forall q :: Owns(answers', userId, q) ==> Participated(ps', userId, q))
      && Claim(answers', userId, ip) == answers'
      && MissingQuestions(answers', ps', userId) == []
  {
    var answers' := Claim(answers, userId, ip);
    var missing := MissingQuestions(answers', ps, userId);
    var ps' := ps + Backfill(userId, missing);
    forall q | Owns(answers', userId, q) ensures Participated(ps', userId, q) {
      if Participated(ps, userId, q) {
        var i :| 0 <= i < |ps| && ps[i] == Participation(userId, q);
        assert ps'[i] == ps[i];
      } else {
        assert q in missing;
        var k :| 0 <= k < |missing| && missing[k] == q;
        assert ps'[|ps| + k] == Participation(userId, q);
      }
    }
    var again := MissingQuestions(answers', ps', userId);
    forall q ensures multiset(again)[q] == 0 {
      if Owns(answers', userId, q) {
        assert Participated(ps', userId, q);
      }
      assert q !in again;
    }
    assert multiset(again) == multiset{};
    assert |again| == |multiset(again)|;
  }

  /** Only unowned answers from that IP change hands; every other answer,
      and every other column, stays as it was. */
  lemma ClaimOnlyAnonymous(answers: seq<Answer>, userId: int, ip: string, i: nat)
    requires i < |answers|
    ensures var r := Claim(answers, userId, ip)[i];
      r.(userId := answers[i].userId) == answers[i]
      && (r != answers[i] <==> answers[i].userId.None? && answers[i].ipAddress == Some(ip))
  {
  }
}
