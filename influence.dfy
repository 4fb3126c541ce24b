/** aggregateDailyInfluence (src/models/influence.ts): per-user likes on a
    question, standard competition ranks ("1224") over them, the question's
    daily_user_influence rows replaced by the newRows ones, and each ranked
    user's lifetime influence_total raised by their likes.  The call is
    modelled as atomic, so the rollback path is the same as not calling it. */
module Influence {
  import opened Common
  import opened Store
  import opened Ordering

  /** `u` has an identified answer on the question. */
  predicate HasAnswer(answers: seq<Answer>, qid: int, u: int) {
    exists i :: 0 <= i < |answers| && answers[i].questionId == qid && answers[i].userId == Some(u)
  }

  /** `SUM(likes_count)` over `u`'s answers on the question. */
  function LikesSum(answers: seq<Answer>, qid: int, u: int): nat
  {
    if answers == [] then 0
    else
      var a := answers[|answers| - 1];
      LikesSum(answers[..|answers| - 1], qid, u) + (if a.questionId == qid && a.userId == Some(u) then a.likesCount else 0)
  }

  /** The `GROUP BY user_id` keys: every identified answerer, once. */
  function Answerers(answers: seq<Answer>, qid: int): (r: seq<int>)
    ensures forall i, j :: 0 <= i < j < |r| ==> r[i] != r[j]
    ensures forall u :: u in r <==> HasAnswer(answers, qid, u)
  {
    if answers == [] then []
    else
      var init, a := answers[..|answers| - 1], answers[|answers| - 1];
      var rest := Answerers(init, qid);
      HasAnswerSplit(answers, qid);
      if a.questionId == qid && a.userId.Some? && a.userId.value !in rest then rest + [a.userId.value]
      else rest
  }

  lemma HasAnswerSplit(answers: seq<Answer>, qid: int)
    requires answers != []
    ensures forall u :: HasAnswer(answers, qid, u) <==>
      HasAnswer(answers[..|answers| - 1], qid, u)
      || (answers[|answers| - 1].questionId == qid && answers[|answers| - 1].userId == Some(u))
  {
    var init, last := answers[..|answers| - 1], answers[|answers| - 1];
    forall u | HasAnswer(answers, qid, u)
      ensures HasAnswer(init, qid, u) || (last.questionId == qid && last.userId == Some(u))
    {
      var i :| 0 <= i < |answers| && answers[i].questionId == qid && answers[i].userId == Some(u);
      if i < |init| {
        assert init[i] == answers[i];
      }
    }
    forall u | HasAnswer(init, qid, u) ensures HasAnswer(answers, qid, u) {
      var i :| 0 <= i < |init| && init[i].questionId == qid && init[i].userId == Some(u);
      assert answers[i] == init[i];
    }
  }

  /** The aggregate rows, one (likes_sum, user_id) per answerer. */
  function Groups(answers: seq<Answer>, qid: int): (r: seq<Scored>)
    ensures forall i, j :: 0 <= i < j < |r| ==> r[i] != r[j]
  {
    var us := Answerers(answers, qid);
    seq(|us|, i requires 0 <= i < |us| => Scored(LikesSum(answers, qid, us[i]), us[i]))
  }

  /** The user ids of some rows. */
  function Ids(rows: seq<Scored>): (r: seq<int>)
    ensures |r| == |rows|
  {
    seq(|rows|, i requires 0 <= i < |rows| => rows[i].id)
  }

  function Scores(rows: seq<Scored>): (r: seq<int>)
    ensures |r| == |rows|
  {
    seq(|rows|, i requires 0 <= i < |rows| => rows[i].score)
  }

  /** The rows the query returns, `ORDER BY likes_sum DESC, user_id ASC`:
      one row per identified answerer holding the sum of their likes. */
  function Rows(answers: seq<Answer>, qid: int): (r: seq<Scored>)
    ensures SortedDesc(r)
    ensures forall i :: 0 <= i < |r| ==> r[i].score == LikesSum(answers, qid, r[i].id) && r[i].score >= 0
    ensures forall u :: u in Ids(r) <==> HasAnswer(answers, qid, u)
    ensures forall i, j :: 0 <= i < j < |r| ==> r[i].id != r[j].id
  {
    var g := Groups(answers, qid);
    var r := Sort(g);
    GroupsAreRows(answers, qid);
    PermutedRows(answers, qid, g, r);
    r
  }

  /** One row per identified answerer on the question, holding the sum of
      their likes, no user twice. */
  ghost predicate RowsOf(answers: seq<Answer>, qid: int, r: seq<Scored>) {
    (forall i :: 0 <= i < |r| ==> r[i].score == LikesSum(answers, qid, r[i].id) && r[i].score >= 0)
    && (forall u :: u in Ids(r) <==> HasAnswer(answers, qid, u))
    && (forall i, j :: 0 <= i < j < |r| ==> r[i].id != r[j].id)
  }

  lemma GroupsAreRows(answers: seq<Answer>, qid: int)
    ensures RowsOf(answers, qid, Groups(answers, qid))
  {
    var us := Answerers(answers, qid);
    var g := Groups(answers, qid);
    assert Ids(g) == us;
  }

  /** Reordering the rows keeps them the rows of the question. */
  lemma PermutedRows(answers: seq<Answer>, qid: int, g: seq<Scored>, r: seq<Scored>)
    requires RowsOf(answers, qid, g) && multiset(r) == multiset(g)
    ensures RowsOf(answers, qid, r)
  {
    assert forall x :: x in r <==> x in g by {
      forall x ensures x in r <==> x in g {
        assert x in r <==> x in multiset(r);
        assert x in g <==> x in multiset(g);
      }
    }
    forall u ensures u in Ids(r) <==> u in Ids(g) {
      if u in Ids(r) {
        var i :| 0 <= i < |r| && Ids(r)[i] == u;
        assert r[i] in g;
        var k :| 0 <= k < |g| && g[k] == r[i];
        assert Ids(g)[k] == u;
      }
      if u in Ids(g) {
        var k :| 0 <= k < |g| && Ids(g)[k] == u;
        assert g[k] in r;
        var i :| 0 <= i < |r| && r[i] == g[k];
        assert Ids(r)[i] == u;
      }
    }
    forall i | 0 <= i < |r| ensures r[i].score == LikesSum(answers, qid, r[i].id) && r[i].score >= 0 {
      assert r[i] in g;
    }
    forall i, j | 0 <= i < j < |r| ensures r[i].id != r[j].id {
      DistinctIds(g, r, i, j);
    }
  }

  /** Two positions of a permutation of rows with distinct ids hold rows
      with distinct ids. */
  lemma DistinctIds(g: seq<Scored>, r: seq<Scored>, i: nat, j: nat)
    requires forall a, b :: 0 <= a < b < |g| ==> g[a].id != g[b].id
    requires multiset(r) == multiset(g) && i < j < |r|
    ensures r[i].id != r[j].id
  {
    assert forall a, b :: 0 <= a < b < |g| ==> g[a] != g[b];
    DistinctPermutation(g, r);
    assert r[i] in multiset(g) && r[j] in multiset(g);
    var k :| 0 <= k < |g| && g[k] == r[i];
    var l :| 0 <= l < |g| && g[l] == r[j];
    assert k != l ==> g[k].id != g[l].id;
  }

  lemma {:induction false} CountAtMostOne<T>(s: seq<T>, x: T)
    requires forall i, j :: 0 <= i < j < |s| ==> s[i] != s[j]
    ensures multiset(s)[x] <= 1
  {
    if s != [] {
      CountAtMostOne(s[1..], x);
      assert s == [s[0]] + s[1..];
      if s[0] == x {
        forall k | 0 <= k < |s[1..]| ensures s[1..][k] != x {
          assert s[1..][k] == s[k + 1];
        }
        assert x !in s[1..];
      }
    }
  }

  lemma TwoPositions<T>(s: seq<T>, i: nat, j: nat)
    requires i < j < |s|
    ensures s[i] == s[j] ==> multiset(s)[s[i]] >= 2
  {
    if s[i] == s[j] {
      assert s == s[..j] + [s[j]] + s[j + 1..];
      assert s[..j][i] == s[i];
      assert multiset(s[..j])[s[i]] >= 1;
    }
  }

  lemma DistinctPermutation<T>(g: seq<T>, r: seq<T>)
    requires forall i, j :: 0 <= i < j < |g| ==> g[i] != g[j]
    requires multiset(r) == multiset(g)
    ensures forall i, j :: 0 <= i < j < |r| ==> r[i] != r[j]
  {
    forall i, j | 0 <= i < j < |r| ensures r[i] != r[j] {
      TwoPositions(r, i, j);
      CountAtMostOne(g, r[i]);
    }
  }

  /** The number of values in `s` strictly greater than `v`. */
  function CountGreater(s: seq<int>, v: int): (n: nat)
    ensures n <= |s|
  {
    if s == [] then 0 else (if s[0] > v then 1 else 0) + CountGreater(s[1..], v)
  }

  /** Standard competition rank of row `k`: one more than the number of
      rows with strictly more likes. */
  function RankOf(scores: seq<int>, k: nat): int
    requires k < |scores|
  {
    1 + CountGreater(scores, scores[k])
  }

  predicate NonIncreasing(s: seq<int>) {
    forall i, j :: 0 <= i < j < |s| ==> s[i] >= s[j]
  }

  lemma ScoresNonIncreasing(rows: seq<Scored>)
    requires SortedDesc(rows)
    ensures NonIncreasing(Scores(rows))
  {
  }

  lemma {:induction false} CountGreaterSplit(s: seq<int>, t: seq<int>, v: int)
    ensures CountGreater(s + t, v) == CountGreater(s, v) + CountGreater(t, v)
  {
    if s != [] {
      assert (s + t)[0] == s[0] && (s + t)[1..] == s[1..] + t;
      CountGreaterSplit(s[1..], t, v);
    } else {
      assert s + t == t;
    }
  }

  lemma {:induction false} CountGreaterAll(s: seq<int>, v: int)
    ensures (forall i :: 0 <= i < |s| ==> s[i] > v) ==> CountGreater(s, v) == |s|
    ensures (forall i :: 0 <= i < |s| ==> s[i] <= v) ==> CountGreater(s, v) == 0
  {
    if s != [] {
      CountGreaterAll(s[1..], v);
      if forall i :: 0 <= i < |s| ==> s[i] > v {
        assert forall i :: 0 <= i < |s[1..]| ==> s[1..][i] == s[i + 1];
      }
      if forall i :: 0 <= i < |s| ==> s[i] <= v {
        assert forall i :: 0 <= i < |s[1..]| ==> s[1..][i] == s[i + 1];
      }
    }
  }

  /** In a non-increasing sequence, a value that starts a new run (it is
      first, or smaller than the one before) has exactly as many greater
      values as it has predecessors. */
  lemma NewRunRank(s: seq<int>, i: nat)
    requires NonIncreasing(s) && i < |s|
    requires i == 0 || s[i - 1] > s[i]
    ensures CountGreater(s, s[i]) == i
  {
    CountGreaterAt(s, i, s[i]);
    HeadAbove(s, i);
    TailAtMost(s, i);
  }

  lemma CountGreaterAt(s: seq<int>, i: nat, v: int)
    requires i <= |s|
    ensures CountGreater(s, v) == CountGreater(s[..i], v) + CountGreater(s[i..], v)
  {
    assert s == s[..i] + s[i..];
    CountGreaterSplit(s[..i], s[i..], v);
  }

  /** Every value before the start of a run is greater than it. */
  lemma HeadAbove(s: seq<int>, i: nat)
    requires NonIncreasing(s) && i < |s|
    requires i == 0 || s[i - 1] > s[i]
    ensures CountGreater(s[..i], s[i]) == i
  {
    forall k | 0 <= k < i ensures s[..i][k] > s[i] {
      assert s[k] >= s[i - 1];
    }
    CountGreaterAll(s[..i], s[i]);
  }

  /** No value from position `i` on is greater than the one at `i`. */
  lemma TailAtMost(s: seq<int>, i: nat)
    requires NonIncreasing(s) && i < |s|
    ensures CountGreater(s[i..], s[i]) == 0
  {
    forall k | 0 <= k < |s| - i ensures s[i..][k] <= s[i] {
      assert s[i..][k] == s[i + k];
    }
    CountGreaterAll(s[i..], s[i]);
  }

  /** The first row is ranked 1. */
  lemma RankFirst(s: seq<int>)
    requires NonIncreasing(s) && s != []
    ensures RankOf(s, 0) == 1
  {
    NewRunRank(s, 0);
  }

  /** Ranks never decrease along the order. */
  lemma RankMonotone(s: seq<int>, i: nat, j: nat)
    requires NonIncreasing(s) && i <= j < |s|
    ensures RankOf(s, i) <= RankOf(s, j)
  {
    CountGreaterMono(s, s[j], s[i]);
  }

  /** No rank exceeds the row's 1-based position. */
  lemma RankAtMostPosition(s: seq<int>, j: nat)
    requires NonIncreasing(s) && j < |s|
    ensures RankOf(s, j) <= j + 1
  {
    var head, tail := s[..j], s[j..];
    assert s == head + tail;
    CountGreaterSplit(head, tail, s[j]);
    forall k | 0 <= k < |tail| ensures tail[k] <= s[j] {
      assert tail[k] == s[j + k];
    }
    CountGreaterAll(tail, s[j]);
  }

  /** A row with fewer likes than row `i` is ranked below every row up to
      and including `i`: ties share a rank, and the next distinct value skips
      the tied positions. */
  lemma RankAfterGreater(s: seq<int>, i: nat, j: nat)
    requires NonIncreasing(s) && i < j < |s| && s[i] > s[j]
    ensures RankOf(s, j) > i + 1
  {
    var head, tail := s[..i + 1], s[i + 1..];
    assert s == head + tail;
    CountGreaterSplit(head, tail, s[j]);
    forall k | 0 <= k < |head| ensures head[k] > s[j] {
      assert head[k] == s[k] >= s[i];
    }
    CountGreaterAll(head, s[j]);
  }

  lemma {:induction false} CountGreaterMono(s: seq<int>, v: int, w: int)
    requires v <= w
    ensures CountGreater(s, w) <= CountGreater(s, v)
  {
    if s != [] {
      CountGreaterMono(s[1..], v, w);
    }
  }

  /** likes [10, 10, 7, 5] are ranked [1, 1, 3, 4]. */
  lemma RankExample()
    ensures var s := [10, 10, 7, 5];
      RankOf(s, 0) == 1 && RankOf(s, 1) == 1 && RankOf(s, 2) == 3 && RankOf(s, 3) == 4
  {
    var s := [10, 10, 7, 5];
    assert s[1..] == [10, 7, 5] && s[2..] == [7, 5] && s[3..] == [5] && s[4..] == [];
  }

  /** The rows written for the question, in processing order. */
  function RankedRows(qid: int, rows: seq<Scored>): (r: seq<InfluenceRow>)
    ensures |r| == |rows|
  {
    seq(|rows|, k requires 0 <= k < |rows| =>
      InfluenceRow(qid, rows[k].id, rows[k].score, RankOf(Scores(rows), k)))
  }

  /** `DELETE FROM daily_user_influence WHERE question_id = ?`. */
  function OtherQuestions(rows: seq<InfluenceRow>, qid: int): (r: seq<InfluenceRow>)
    ensures forall x :: x in r <==> x in rows && x.questionId != qid
  {
    if rows == [] then []
    else if rows[0].questionId == qid then OtherQuestions(rows[1..], qid)
    else [rows[0]] + OtherQuestions(rows[1..], qid)
  }

  /** The rows of one question, in table order. */
  function OfQuestion(rows: seq<InfluenceRow>, qid: int): (r: seq<InfluenceRow>)
    ensures forall x :: x in r <==> x in rows && x.questionId == qid
  {
    if rows == [] then []
    else if rows[0].questionId == qid then [rows[0]] + OfQuestion(rows[1..], qid)
    else OfQuestion(rows[1..], qid)
  }

  lemma FilterConcat(s: seq<InfluenceRow>, t: seq<InfluenceRow>, qid: int)
    ensures OfQuestion(s + t, qid) == OfQuestion(s, qid) + OfQuestion(t, qid)
    ensures OtherQuestions(s + t, qid) == OtherQuestions(s, qid) + OtherQuestions(t, qid)
  {
    OfQuestionConcat(s, t, qid);
    OtherQuestionsConcat(s, t, qid);
  }

  lemma {:induction false} OfQuestionConcat(s: seq<InfluenceRow>, t: seq<InfluenceRow>, qid: int)
    ensures OfQuestion(s + t, qid) == OfQuestion(s, qid) + OfQuestion(t, qid)
  {
    if s == [] {
      assert s + t == t;
    } else {
      var u := s + t;
      assert u[0] == s[0] && u[1..] == s[1..] + t;
      OfQuestionConcat(s[1..], t, qid);
      if s[0].questionId == qid {
        calc {
          OfQuestion(u, qid);
          [s[0]] + OfQuestion(s[1..] + t, qid);
          [s[0]] + (OfQuestion(s[1..], qid) + OfQuestion(t, qid));
          ([s[0]] + OfQuestion(s[1..], qid)) + OfQuestion(t, qid);
        }
      }
    }
  }

  lemma {:induction false} OtherQuestionsConcat(s: seq<InfluenceRow>, t: seq<InfluenceRow>, qid: int)
    ensures OtherQuestions(s + t, qid) == OtherQuestions(s, qid) + OtherQuestions(t, qid)
  {
    if s == [] {
      assert s + t == t;
    } else {
      var u := s + t;
      assert u[0] == s[0] && u[1..] == s[1..] + t;
      OtherQuestionsConcat(s[1..], t, qid);
      if s[0].questionId != qid {
        calc {
          OtherQuestions(u, qid);
          [s[0]] + OtherQuestions(s[1..] + t, qid);
          [s[0]] + (OtherQuestions(s[1..], qid) + OtherQuestions(t, qid));
          ([s[0]] + OtherQuestions(s[1..], qid)) + OtherQuestions(t, qid);
        }
      }
    }
  }

  lemma {:induction false} FilterAll(s: seq<InfluenceRow>, qid: int)
    requires forall i :: 0 <= i < |s| ==> s[i].questionId == qid
    ensures OfQuestion(s, qid) == s && OtherQuestions(s, qid) == []
  {
    if s != [] {
      assert forall i :: 0 <= i < |s[1..]| ==> s[1..][i] == s[i + 1];
      FilterAll(s[1..], qid);
    }
  }

  lemma {:induction false} FilterNone(s: seq<InfluenceRow>, qid: int)
    requires forall i :: 0 <= i < |s| ==> s[i].questionId != qid
    ensures OfQuestion(s, qid) == [] && OtherQuestions(s, qid) == s
  {
    if s != [] {
      assert forall i :: 0 <= i < |s[1..]| ==> s[1..][i] == s[i + 1];
      FilterNone(s[1..], qid);
    }
  }

  /** After the delete and the inserts the question holds exactly the
      newRows rows, and every other question's rows are as they were. */
  lemma ReplacementEffect(before: seq<InfluenceRow>, qid: int, newRows: seq<InfluenceRow>)
    requires forall i :: 0 <= i < |newRows| ==> newRows[i].questionId == qid
    ensures OfQuestion(OtherQuestions(before, qid) + newRows, qid) == newRows
    ensures OtherQuestions(OtherQuestions(before, qid) + newRows, qid) == OtherQuestions(before, qid)
  {
    var kept := OtherQuestions(before, qid);
    assert forall i :: 0 <= i < |kept| ==> kept[i].questionId != qid by {
      forall i | 0 <= i < |kept| ensures kept[i].questionId != qid {
        assert kept[i] in kept;
      }
    }
    FilterConcat(kept, newRows, qid);
    FilterNone(kept, qid);
    FilterAll(newRows, qid);
  }

  /** `UPDATE user_stats SET influence_total = influence_total + ?` for each
      row in turn (no row, no change). */
  function AddInfluence(stats: map<int, Stats>, rows: seq<Scored>): (r: map<int, Stats>)
    ensures r.Keys == stats.Keys
  {
    if rows == [] then stats else AddScore(AddInfluence(stats, rows[..|rows| - 1]), rows[|rows| - 1])
  }

  /** The one `UPDATE` of a row: only that user's total moves. */
  function AddScore(stats: map<int, Stats>, r: Scored): (s: map<int, Stats>)
    ensures s.Keys == stats.Keys
  {
    if r.id in stats then stats[r.id := stats[r.id].(influenceTotal := stats[r.id].influenceTotal + r.score)]
    else stats
  }

  function ScoreOf(rows: seq<Scored>, u: int): int
  {
    if rows == [] then 0
    else ScoreOf(rows[..|rows| - 1], u) + (if rows[|rows| - 1].id == u then rows[|rows| - 1].score else 0)
  }

  /** Each user's influence_total rises by the likes of their rows and by
      nothing else; no row is added or removed. */
  lemma {:induction false} InfluenceEffect(stats: map<int, Stats>, rows: seq<Scored>, u: int)
    ensures u in stats ==>
      AddInfluence(stats, rows)[u] == stats[u].(influenceTotal := stats[u].influenceTotal + ScoreOf(rows, u))
  {
    if rows != [] {
      InfluenceEffect(stats, rows[..|rows| - 1], u);
    }
  }

  /** With one row per user, that is exactly the user's row's likes, and 0
      for a user without a row. */
  lemma {:induction false} ScoreOfDistinct(rows: seq<Scored>, u: int)
    requires forall i, j :: 0 <= i < j < |rows| ==> rows[i].id != rows[j].id
    ensures u !in Ids(rows) ==> ScoreOf(rows, u) == 0
    ensures forall k :: 0 <= k < |rows| && rows[k].id == u ==> ScoreOf(rows, u) == rows[k].score
  {
    if rows != [] {
      var init := rows[..|rows| - 1];
      ScoreOfDistinct(init, u);
      if u !in Ids(rows) {
        assert Ids(rows)[|rows| - 1] == rows[|rows| - 1].id;
        forall k | 0 <= k < |init| ensures Ids(init)[k] != u {
          assert Ids(init)[k] == Ids(rows)[k];
        }
      }
      forall k | 0 <= k < |rows| && rows[k].id == u ensures ScoreOf(rows, u) == rows[k].score {
        if k < |init| {
          assert init[k] == rows[k];
          assert rows[|rows| - 1].id != u;
        } else {
          assert forall m :: 0 <= m < |init| ==> Ids(init)[m] == rows[m].id && rows[m].id != u;
          assert u !in Ids(init);
        }
      }
    }
  }

  /** Running the aggregation again adds the likes a second time: nothing
      guards against a rerun. */
  lemma RerunAddsAgain(stats: map<int, Stats>, rows: seq<Scored>, u: int)
    requires u in stats
    ensures AddInfluence(AddInfluence(stats, rows), rows)[u].influenceTotal
            == stats[u].influenceTotal + 2 * ScoreOf(rows, u)
  {
    InfluenceEffect(stats, rows, u);
    InfluenceEffect(AddInfluence(stats, rows), rows, u);
  }

  lemma AddOneRow(stats: map<int, Stats>, rows: seq<Scored>, i: nat)
    requires i < |rows|
    ensures AddInfluence(stats, rows[..i + 1]) == AddScore(AddInfluence(stats, rows[..i]), rows[i])
  {
    assert rows[..i + 1][..i] == rows[..i];
  }

  /** The rank the loop gives row `i`: a new value starts a run ranked
      one past its position, a repeated one keeps the run's rank. */
  lemma RankStep(rows: seq<Scored>, i: nat)
    requires NonIncreasing(Scores(rows)) && i < |rows|
    ensures var scores := Scores(rows);
      scores[i] == rows[i].score
      && (i == 0 ==> RankOf(scores, i) == 1)
      && (i > 0 && rows[i].score != rows[i - 1].score ==> RankOf(scores, i) == i + 1)
      && (i > 0 && rows[i].score == rows[i - 1].score ==> RankOf(scores, i) == RankOf(scores, i - 1))
  {
    var scores := Scores(rows);
    if i > 0 && rows[i].score != rows[i - 1].score {
      assert scores[i - 1] >= scores[i];
    }
    if i == 0 || rows[i].score != rows[i - 1].score {
      NewRunRank(scores, i);
    }
  }

  /** The loop of aggregateDailyInfluence over the ordered rows: each row
      is written with its competition rank, and its user's influence_total
      is raised by its likes. */
  method RecordRanks(db: Db, qid: int, rows: seq<Scored>)
    requires NonIncreasing(Scores(rows))
    requires forall i :: 0 <= i < |rows| ==> rows[i].score >= 0
    modifies db`influence, db`stats
    ensures db.influence == old(db.influence) + RankedRows(qid, rows)
    ensures db.stats == AddInfluence(old(db.stats), rows)
  {
    ghost var scores := Scores(rows);
    ghost var newRows := RankedRows(qid, rows);
    var rank, lastLikes, ties := 0, -1, 0;
    var i := 0;
    while i < |rows|
      invariant 0 <= i <= |rows|
      invariant db.influence == old(db.influence) + newRows[..i]
      invariant db.stats == AddInfluence(old(db.stats), rows[..i])
      invariant rank + ties == i && ties >= 0
      invariant i == 0 ==> rank == 0 && lastLikes == -1
      invariant i > 0 ==> lastLikes == rows[i - 1].score && rank == RankOf(scores, i - 1)
    {
      var r := rows[i];
      RankStep(rows, i);
      if r.score != lastLikes {
        rank := rank + 1 + ties;
        ties := 0;
        lastLikes := r.score;
      } else {
        ties := ties + 1;
      }
      db.influence := db.influence + [InfluenceRow(qid, r.id, r.score, rank)];
      db.stats := AddScore(db.stats, r);
      assert newRows[..i + 1] == newRows[..i] + [newRows[i]];
      AddOneRow(old(db.stats), rows, i);
      i := i + 1;
    }
    assert newRows[..i] == newRows && rows[..i] == rows;
  }

  /** aggregateDailyInfluence: the question's rows are replaced by the
      ranked aggregate, and every ranked user's total grows. */
  method AggregateDailyInfluence(db: Db, qid: int)
    modifies db`influence, db`stats
    ensures db.influence == OtherQuestions(old(db.influence), qid) + RankedRows(qid, Rows(db.answers, qid))
    ensures db.stats == AddInfluence(old(db.stats), Rows(db.answers, qid))
  {
    var rows := Rows(db.answers, qid);
    db.influence := OtherQuestions(db.influence, qid);
    ScoresNonIncreasing(rows);
    RecordRanks(db, qid, rows);
  }

  /** The whole effect on one user: a user who answered the question gains
      exactly their likes on it, any other user nothing. */
  lemma AggregateEffect(answers: seq<Answer>, qid: int, stats: map<int, Stats>, u: int)
    requires u in stats
    ensures AddInfluence(stats, Rows(answers, qid))[u].influenceTotal
            == stats[u].influenceTotal + (if HasAnswer(answers, qid, u) then LikesSum(answers, qid, u) else 0)
  {
    var rows := Rows(answers, qid);
    InfluenceEffect(stats, rows, u);
    ScoreOfDistinct(rows, u);
    if HasAnswer(answers, qid, u) {
      var k :| 0 <= k < |rows| && Ids(rows)[k] == u;
    }
  }
}
