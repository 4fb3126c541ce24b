/** settleQuestionPower (src/models/power.ts): the majority side of a
    question, decided by the likes each side received, and the power
    counters of every identified answerer.  The call is modelled as atomic:
    the rollback path leaves the table as it was, so it is the same as not
    calling it. */
module Power {
  import opened Common
  import opened Store

  function Other(s: Side): Side {
    if s == A then B else A
  }

  /** Some answer on the question is on `side`. */
  predicate HasSide(answers: seq<Answer>, qid: int, side: Side) {
    exists i :: 0 <= i < |answers| && answers[i].questionId == qid && answers[i].side == side
  }

  /** `SUM(likes_count)` of the question's answers on `side`, anonymous
      answers included. */
  function SideLikes(answers: seq<Answer>, qid: int, side: Side): nat
  {
    if answers == [] then 0
    else
      var a := answers[|answers| - 1];
      SideLikes(answers[..|answers| - 1], qid, side) + (if a.questionId == qid && a.side == side then a.likesCount else 0)
  }

  /** The rows of the `GROUP BY side` query, one per side that has answers.
      MySQL does not fix their order; `aFirst` says whether side A's row
      comes first when both exist. */
  function SideTotals(answers: seq<Answer>, qid: int, aFirst: bool): (r: seq<(Side, nat)>)
    ensures |r| == (if HasSide(answers, qid, A) then 1 else 0) + (if HasSide(answers, qid, B) then 1 else 0)
    ensures forall i :: 0 <= i < |r| ==> HasSide(answers, qid, r[i].0) && r[i].1 == SideLikes(answers, qid, r[i].0)
    ensures |r| == 2 ==> r[0].0 == (if aFirst then A else B) && r[1].0 == Other(r[0].0)
  {
    var rowA := if HasSide(answers, qid, A) then [(A, SideLikes(answers, qid, A))] else [];
    var rowB := if HasSide(answers, qid, B) then [(B, SideLikes(answers, qid, B))] else [];
    if aFirst then rowA + rowB else rowB + rowA
  }

  /** The majority: 'A' when nobody answered, the only side when one side
      has answers, else the side of the first row unless the second row has
      strictly more likes.  Answer counts play no part. */
  function Majority(answers: seq<Answer>, qid: int, aFirst: bool): (r: Side)
    ensures !HasSide(answers, qid, A) && !HasSide(answers, qid, B) ==> r == A
    ensures HasSide(answers, qid, A) != HasSide(answers, qid, B) ==> HasSide(answers, qid, r)
    ensures HasSide(answers, qid, A) && HasSide(answers, qid, B)
            && SideLikes(answers, qid, A) != SideLikes(answers, qid, B)
            ==> SideLikes(answers, qid, r) > SideLikes(answers, qid, Other(r))
    ensures HasSide(answers, qid, A) && HasSide(answers, qid, B)
            && SideLikes(answers, qid, A) == SideLikes(answers, qid, B)
            ==> r == (if aFirst then A else B)
  {
    var totals := SideTotals(answers, qid, aFirst);
    if |totals| == 2 then (if totals[0].1 >= totals[1].1 then totals[0].0 else totals[1].0)
    else if |totals| == 1 then totals[0].0
    else A
  }

  /** The identified user `u` answered the question on `side`. */
  predicate Answered(answers: seq<Answer>, qid: int, u: int, side: Side) {
    exists i :: 0 <= i < |answers| && answers[i].questionId == qid && answers[i].userId == Some(u)
                && answers[i].side == side
  }

  /** `SELECT DISTINCT user_id, side ... WHERE user_id IS NOT NULL`: every
      (user, side) pair of an identified answer, once. */
  function Participants(answers: seq<Answer>, qid: int): (r: seq<(int, Side)>)
    ensures forall i, j :: 0 <= i < j < |r| ==> r[i] != r[j]
    ensures forall u, s :: (u, s) in r <==> Answered(answers, qid, u, s)
  {
    if answers == [] then []
    else
      var init := answers[..|answers| - 1];
      var a := answers[|answers| - 1];
      var rest := Participants(init, qid);
      AnsweredSplit(answers, qid);
      if a.questionId == qid && a.userId.Some? && (a.userId.value, a.side) !in rest
      then rest + [(a.userId.value, a.side)]
      else rest
  }

  lemma AnsweredSplit(answers: seq<Answer>, qid: int)
    requires answers != []
    ensures forall u, s :: Answered(answers, qid, u, s) <==>
      Answered(answers[..|answers| - 1], qid, u, s)
      || (answers[|answers| - 1].questionId == qid && answers[|answers| - 1].userId == Some(u)
          && answers[|answers| - 1].side == s)
  {
    var init := answers[..|answers| - 1];
    var last := answers[|answers| - 1];
    forall u, s | Answered(answers, qid, u, s)
      ensures Answered(init, qid, u, s) || (last.questionId == qid && last.userId == Some(u) && last.side == s)
    {
      var i :| 0 <= i < |answers| && answers[i].questionId == qid && answers[i].userId == Some(u)
               && answers[i].side == s;
      if i < |init| {
        assert init[i] == answers[i];
      }
    }
    forall u, s | Answered(init, qid, u, s) ensures Answered(answers, qid, u, s) {
      var i :| 0 <= i < |init| && init[i].questionId == qid && init[i].userId == Some(u)
               && init[i].side == s;
      assert answers[i] == init[i];
    }
  }

  /** One participant's two UPDATEs; an UPDATE that matches no row changes
      nothing. */
  function Bump(stats: map<int, Stats>, p: (int, Side), majority: Side): map<int, Stats>
  {
    var s1 := if p.0 in stats then stats[p.0 := stats[p.0].(powerParticipations := stats[p.0].powerParticipations + 1)]
              else stats;
    if p.1 == majority && p.0 in s1 then s1[p.0 := s1[p.0].(majorityHits := s1[p.0].majorityHits + 1)]
    else s1
  }

  /** The table after the loop has run over `parts`. */
  function ApplyPower(stats: map<int, Stats>, parts: seq<(int, Side)>, majority: Side): map<int, Stats>
  {
    if parts == [] then stats
    else Bump(ApplyPower(stats, parts[..|parts| - 1], majority), parts[|parts| - 1], majority)
  }

  function CountUser(parts: seq<(int, Side)>, u: int): nat
  {
    if parts == [] then 0
    else CountUser(parts[..|parts| - 1], u) + (if parts[|parts| - 1].0 == u then 1 else 0)
  }

  function CountPair(parts: seq<(int, Side)>, p: (int, Side)): nat
  {
    if parts == [] then 0
    else CountPair(parts[..|parts| - 1], p) + (if parts[|parts| - 1] == p then 1 else 0)
  }

  /** The loop adds, to each user's row, one participation per pair of that
      user and one majority hit per pair on the majority side; the set of
      rows and every other column are unchanged. */
  lemma {:induction false} PowerEffect(stats: map<int, Stats>, parts: seq<(int, Side)>, majority: Side, u: int)
    ensures ApplyPower(stats, parts, majority).Keys == stats.Keys
    ensures u in stats ==> ApplyPower(stats, parts, majority)[u] == stats[u].(
      powerParticipations := stats[u].powerParticipations + CountUser(parts, u),
      majorityHits := stats[u].majorityHits + CountPair(parts, (u, majority)))
  {
    if parts != [] {
      PowerEffect(stats, parts[..|parts| - 1], majority, u);
    }
  }

  /** Over distinct pairs a user is counted once per side and hits the
      majority at most once. */
  lemma {:induction false} DistinctCounts(parts: seq<(int, Side)>, u: int, majority: Side)
    requires forall i, j :: 0 <= i < j < |parts| ==> parts[i] != parts[j]
    ensures CountUser(parts, u) == (if (u, A) in parts then 1 else 0) + (if (u, B) in parts then 1 else 0)
    ensures CountPair(parts, (u, majority)) == if (u, majority) in parts then 1 else 0
  {
    if parts != [] {
      var init, last := parts[..|parts| - 1], parts[|parts| - 1];
      DistinctCounts(init, u, majority);
      assert parts == init + [last];
      forall k | 0 <= k < |init| ensures init[k] != last {
        assert init[k] == parts[k];
      }
      assert last !in init;
      assert forall p :: p in parts <==> p in init || p == last;
      assert last == (u, A) || last == (u, B) || last.0 != u by {
        if last.0 == u {
          if last.1 == A { assert last == (u, A); } else { assert last == (u, B); }
        }
      }
    }
  }

  /** The whole settlement: each user's participations grow by the number
      of sides they answered on, their majority hits by one exactly when
      they answered on the majority side; anonymous answers, users who did
      not answer, and all other columns are untouched. */
  lemma SettlementEffect(answers: seq<Answer>, qid: int, aFirst: bool, stats: map<int, Stats>, u: int)
    ensures ApplyPower(stats, Participants(answers, qid), Majority(answers, qid, aFirst)).Keys == stats.Keys
    ensures u in stats ==>
      var m := Majority(answers, qid, aFirst);
      ApplyPower(stats, Participants(answers, qid), m)[u] == stats[u].(
        powerParticipations := stats[u].powerParticipations
          + (if Answered(answers, qid, u, A) then 1 else 0) + (if Answered(answers, qid, u, B) then 1 else 0),
        majorityHits := stats[u].majorityHits + (if Answered(answers, qid, u, m) then 1 else 0))
  {
    var parts, m := Participants(answers, qid), Majority(answers, qid, aFirst);
    PowerEffect(stats, parts, m, u);
    DistinctCounts(parts, u, m);
  }

  /** settleQuestionPower: returns the majority and applies the counter
      updates of every participant. */
  method SettleQuestionPower(db: Db, qid: int, aFirst: bool) returns (majority: Side)
    modifies db`stats
    ensures majority == Majority(db.answers, qid, aFirst)
    ensures db.stats == ApplyPower(old(db.stats), Participants(db.answers, qid), majority)
  {
    majority := Majority(db.answers, qid, aFirst);
    var parts := Participants(db.answers, qid);
    var i := 0;
    while i < |parts|
      invariant 0 <= i <= |parts|
      invariant db.stats == ApplyPower(old(db.stats), parts[..i], majority)
    {
      var (u, side) := parts[i];
      if u in db.stats {
        db.stats := db.stats[u := db.stats[u].(powerParticipations := db.stats[u].powerParticipations + 1)];
      }
      if side == majority && u in db.stats {
        db.stats := db.stats[u := db.stats[u].(majorityHits := db.stats[u].majorityHits + 1)];
      }
      assert parts[..i + 1][..i] == parts[..i];
      i := i + 1;
    }
    assert parts[..i] == parts;
  }
}
