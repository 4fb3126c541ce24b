/** The answers model (src/models/answers.ts): the like set, the top
    answers of one side, and the filtered, sorted listing query. */
module Answers {
  import opened Common
  import opened Store
  import opened Ordering

  /** likeAnswer: `INSERT IGNORE` of the (answer, user) pair. */
  method LikeAnswer(db: Db, answerId: int, userId: int)
    modifies db`likes
    ensures db.likes == old(db.likes) + {(answerId, userId)}
  {
    db.likes := db.likes + {(answerId, userId)};
  }

  /** unlikeAnswer: `DELETE` of exactly that pair. */
  method UnlikeAnswer(db: Db, answerId: int, userId: int)
    modifies db`likes
    ensures db.likes == old(db.likes) - {(answerId, userId)}
  {
    db.likes := db.likes - {(answerId, userId)};
  }

  /** The like set is a set: liking twice is liking once, unliking an absent
      pair is a no-op, unlike undoes a fresh like, and no other pair moves. */
  lemma {:induction false} LikeSetLaws(likes: set<(int, int)>, answerId: int, userId: int, other: (int, int))
    requires other != (answerId, userId)
    ensures likes + {(answerId, userId)} + {(answerId, userId)} == likes + {(answerId, userId)}
    ensures (answerId, userId) !in likes ==> likes - {(answerId, userId)} == likes
    ensures (answerId, userId) !in likes ==> likes + {(answerId, userId)} - {(answerId, userId)} == likes
    ensures (other in likes + {(answerId, userId)}) == (other in likes) == (other in likes - {(answerId, userId)})
  {
  }

  predicate OnSide(a: Answer, questionId: int, side: Side) {
    a.questionId == questionId && a.side == side
  }

  /** `WHERE question_id = ? AND side = ?`, each row reduced to its
      likes_count and its id, in table order. */
  function Matching(answers: seq<Answer>, questionId: int, side: Side): (r: seq<Scored>)
    ensures forall k :: 0 <= k < |r| ==> (1 <= r[k].id <= |answers|
      && OnSide(answers[r[k].id - 1], questionId, side) && r[k].score == answers[r[k].id - 1].likesCount)
    ensures forall i :: 0 <= i < |answers| && OnSide(answers[i], questionId, side) ==>
      Scored(answers[i].likesCount, i + 1) in r
    ensures forall k, l :: 0 <= k < l < |r| ==> r[k].id < r[l].id
  {
    var r := MatchingFrom(answers, questionId, side, 0);
    MatchingFromSound(answers, questionId, side, 0);
    MatchingFromComplete(answers, questionId, side, 0);
    MatchingFromIncreasing(answers, questionId, side, 0);
    assert RowsMatch(answers, questionId, side, 0, r) && RowsCover(answers, questionId, side, 0, r);
    r
  }

  /** The matching rows among the answers from index `i` on. */
  function MatchingFrom(answers: seq<Answer>, questionId: int, side: Side, i: nat): seq<Scored>
    requires i <= |answers|
    decreases |answers| - i
  {
    if i == |answers| then []
    else
      var rest := MatchingFrom(answers, questionId, side, i + 1);
      if OnSide(answers[i], questionId, side) then [Scored(answers[i].likesCount, i + 1)] + rest else rest
  }

  /** Every row of `r` is a matching answer after index `i`, with its likes. */
  predicate RowsMatch(answers: seq<Answer>, questionId: int, side: Side, i: nat, r: seq<Scored>) {
    forall k :: 0 <= k < |r| ==> (i < r[k].id <= |answers|
      && OnSide(answers[r[k].id - 1], questionId, side) && r[k].score == answers[r[k].id - 1].likesCount)
  }

  /** Every matching answer from index `i` on has its row in `r`. */
  predicate RowsCover(answers: seq<Answer>, questionId: int, side: Side, i: nat, r: seq<Scored>) {
    forall j :: i <= j < |answers| && OnSide(answers[j], questionId, side) ==>
      Scored(answers[j].likesCount, j + 1) in r
  }

  predicate IdsIncreasing(r: seq<Scored>) {
    forall k, l :: 0 <= k < l < |r| ==> r[k].id < r[l].id
  }

  lemma {:induction false} MatchingFromSound(answers: seq<Answer>, questionId: int, side: Side, i: nat)
    requires i <= |answers|
    ensures RowsMatch(answers, questionId, side, i, MatchingFrom(answers, questionId, side, i))
    decreases |answers| - i
  {
    if i < |answers| {
      MatchingFromSound(answers, questionId, side, i + 1);
      var rest := MatchingFrom(answers, questionId, side, i + 1);
      if OnSide(answers[i], questionId, side) {
        var r := [Scored(answers[i].likesCount, i + 1)] + rest;
        forall k | 0 <= k < |r|
          ensures i < r[k].id <= |answers| && OnSide(answers[r[k].id - 1], questionId, side)
                  && r[k].score == answers[r[k].id - 1].likesCount
        {
          if k > 0 {
            assert r[k] == rest[k - 1];
          }
        }
      }
    }
  }

  lemma {:induction false} MatchingFromComplete(answers: seq<Answer>, questionId: int, side: Side, i: nat)
    requires i <= |answers|
    ensures RowsCover(answers, questionId, side, i, MatchingFrom(answers, questionId, side, i))
    decreases |answers| - i
  {
    if i < |answers| {
      MatchingFromComplete(answers, questionId, side, i + 1);
      var rest := MatchingFrom(answers, questionId, side, i + 1);
      var r := MatchingFrom(answers, questionId, side, i);
      forall j | i <= j < |answers| && OnSide(answers[j], questionId, side)
        ensures Scored(answers[j].likesCount, j + 1) in r
      {
        if j > i {
          assert Scored(answers[j].likesCount, j + 1) in rest;
        }
      }
    }
  }

  lemma {:induction false} MatchingFromIncreasing(answers: seq<Answer>, questionId: int, side: Side, i: nat)
    requires i <= |answers|
    ensures IdsIncreasing(MatchingFrom(answers, questionId, side, i))
    decreases |answers| - i
  {
    if i < |answers| {
      MatchingFromSound(answers, questionId, side, i + 1);
      MatchingFromIncreasing(answers, questionId, side, i + 1);
      var rest := MatchingFrom(answers, questionId, side, i + 1);
      if OnSide(answers[i], questionId, side) {
        var r := [Scored(answers[i].likesCount, i + 1)] + rest;
        forall k, l | 0 <= k < l < |r| ensures r[k].id < r[l].id {
          assert r[l] == rest[l - 1];
          if k > 0 {
            assert r[k] == rest[k - 1];
          }
        }
      }
    }
  }

  /** getTopAnswersBySide: `ORDER BY likes_count DESC, id ASC LIMIT ?`. */
  function TopAnswersBySide(answers: seq<Answer>, questionId: int, side: Side, limit: int): seq<Scored>
  {
    Take(Sort(Matching(answers, questionId, side)), limit)
  }

  /** The rows returned belong to that question and side, come in order,
      number min(limit, matching rows), and each precedes every matching row
      left out. */
  lemma TopIsTop(answers: seq<Answer>, questionId: int, side: Side, limit: int)
    ensures var m := Matching(answers, questionId, side);
      var r := TopAnswersBySide(answers, questionId, side, limit);
      SortedDesc(r)
      && |r| == (if limit <= 0 then 0 else if limit < |m| then limit else |m|)
      && (forall k :: 0 <= k < |r| ==> r[k] in m)
      && (forall x, k :: x in m && x !in r && 0 <= k < |r| ==> Precedes(r[k], x))
  {
    SortedPrefixIsTop(Matching(answers, questionId, side), limit);
  }

  /** The first `limit` rows of the ordered rows are the top ones. */
  lemma SortedPrefixIsTop(m: seq<Scored>, limit: int)
    ensures var r := Take(Sort(m), limit);
      SortedDesc(r)
      && (forall k :: 0 <= k < |r| ==> r[k] in m)
      && (forall x, k :: x in m && x !in r && 0 <= k < |r| ==> Precedes(r[k], x))
  {
    var s := Sort(m);
    var r := Take(s, limit);
    TakeSorted(s, limit);
    forall k | 0 <= k < |r| ensures r[k] in m {
      assert r[k] == s[k] && s[k] in multiset(s);
    }
    forall x, k | x in m && x !in r && 0 <= k < |r| ensures Precedes(r[k], x) {
      assert x in multiset(m);
      assert x in multiset(s);
      forall i | 0 <= i < |r| ensures s[i] != x {
        assert r[i] == s[i] && r[i] in r;
      }
      var j :| 0 <= j < |s| && s[j] == x;
      assert r[k] == s[k];
    }
  }

  /** The value list of the listing query: numbers as JavaScript sends them,
      and the side text. */
  datatype Param = Number(n: Num) | Text(s: string)

  /** The ORDER BY clause listByQuestion picks for a sort value. */
  function OrderFor(sort: string): (r: string)
    ensures sort == "likes_desc" <==> r == "likes_count DESC, id DESC"
    ensures sort == "likes_asc" <==> r == "likes_count ASC, id ASC"
    ensures sort == "old" <==> r == "created_at ASC, id ASC"
    ensures sort !in {"likes_desc", "likes_asc", "old"} <==> r == "created_at DESC, id DESC"
  {
    if sort == "likes_desc" then "likes_count DESC, id DESC"
    else if sort == "likes_asc" then "likes_count ASC, id ASC"
    else if sort == "old" then "created_at ASC, id ASC"
    else "created_at DESC, id DESC"
  }

  /** The listing query: its WHERE conditions, its ORDER BY and the values
      bound to its placeholders. */
  datatype Listing = Listing(conditions: seq<string>, order: string, params: seq<Param>)

  /** listByQuestion: `question_id = ?` always, `side = ?` when a (truthy)
      side is given, then LIMIT and OFFSET.  Each condition holds one
      placeholder, so the values line up with them and the two of LIMIT and
      OFFSET. */
  method ListByQuestion(questionId: Num, side: Option<string>, sort: string, limit: Num, offset: Num)
    returns (q: Listing)
    ensures 1 <= |q.conditions| && |q.params| == |q.conditions| + 2
    ensures q.conditions[0] == "question_id = ?" && q.params[0] == Number(questionId)
    ensures q.params[|q.params| - 2..] == [Number(limit), Number(offset)]
    ensures side.Some? && side.value != "" ==>
      q.conditions == ["question_id = ?", "side = ?"] && q.params[1] == Text(side.value)
    ensures side.None? || side.value == "" ==> q.conditions == ["question_id = ?"]
    ensures q.order == OrderFor(sort)
  {
    var conditions := ["question_id = ?"];
    var params := [Number(questionId)];
    if side.Some? && side.value != "" {
      conditions := conditions + ["side = ?"];
      params := params + [Text(side.value)];
    }
    var order := OrderFor(sort);
    params := params + [Number(limit), Number(offset)];
    q := Listing(conditions, order, params);
  }
}
