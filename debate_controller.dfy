/** The handlers of src/controllers/debate.controller.ts: the id checks,
    the replies, the listing defaults and the result percentages.  A
    request number is the `Number(...)` of its text (Common.Num); the
    percentages are integer hundredths. */
module DebateController {
  import opened Common
  import opened Store
  import opened Ordering
  import Questions
  import Answers

  /** `!qid || qid <= 0`, and equally `Number.isNaN(qid) || qid <= 0`:
      NaN, zero and negative numbers are refused. */
  predicate BadId(n: Num) {
    !NumTruthy(n) || n.value <= 0.0
  }

  /** The row id an accepted number can equal: its value when integral;
      a fractional number equals no id. */
  function RowId(n: Num): (r: Option<int>)
    requires !BadId(n)
    ensures r.Some? ==> r.value >= 1 && r.value as real == n.value
    ensures r.None? ==> n.value.Floor as real != n.value
  {
    if n.value.Floor as real == n.value then Some(n.value.Floor) else None
  }

  /** getActiveQuestion: the active question, or 404. */
  function GetActiveQuestion(qs: seq<Question>): (r: Result<nat, Outcome>)
    ensures r.Err? <==> !Questions.HasActive(qs)
    ensures r.Err? ==> r.error == Respond(404, "No active question")
    ensures r.Ok? ==> r.value < |qs| && qs[r.value].status == Active
  {
    match Questions.LatestActive(qs)
    case None => Err(Respond(404, "No active question"))
    case Some(i) => Ok(i)
  }

  /** answer: 201 with the created id when it is truthy, else 400. */
  function AnswerReply(createdAnswerId: Option<int>): (r: Outcome)
    ensures r == Respond(201, "Answer created") <==> createdAnswerId.Some? && createdAnswerId.value != 0
    ensures r != Respond(201, "Answer created") ==> r == Respond(400, "Answer not created")
  {
    if createdAnswerId.None? || createdAnswerId.value == 0 then Respond(400, "Answer not created")
    else Respond(201, "Answer created")
  }

  /** The body of getTopAnswers: one side's rows, or both sides'. */
  datatype Top = OneSide(side: Side, rows: seq<Scored>) | BothSides(topA: seq<Scored>, topB: seq<Scored>)

  /** The rows getTopAnswersBySide returns for a request number. */
  function TopRows(answers: seq<Answer>, qid: Num, side: Side, limit: int): (r: seq<Scored>)
    requires !BadId(qid)
    ensures forall k :: 0 <= k < |r| ==> (1 <= r[k].id <= |answers|
      && answers[r[k].id - 1].side == side && answers[r[k].id - 1].questionId as real == qid.value)
    ensures RowId(qid).None? ==> r == []
    ensures RowId(qid).Some? ==> var m := Answers.Matching(answers, RowId(qid).value, side);
      r == Answers.TopAnswersBySide(answers, RowId(qid).value, side, limit)
      && SortedDesc(r)
      && |r| == (if limit <= 0 then 0 else if limit < |m| then limit else |m|)
      && (forall x, k :: x in m && x !in r && 0 <= k < |r| ==> Precedes(r[k], x))
  {
    match RowId(qid)
    case None => []
    case Some(id) =>
      var r := Answers.TopAnswersBySide(answers, id, side, limit);
      Answers.TopIsTop(answers, id, side, limit);
      r
  }

  /** getTopAnswers: 400 for a bad id; `side` "A" or "B" gives that side's
      top rows, anything else both sides'; the limit defaults to 10. */
  function GetTopAnswers(answers: seq<Answer>, qid: Num, side: Option<string>, limit: Option<int>)
    : (r: Result<Top, Outcome>)
    ensures r.Err? <==> BadId(qid)
    ensures r.Err? ==> r.error == Respond(400, "Invalid question id")
    ensures r.Ok? && side == Some("A") ==> r.value.OneSide? && r.value.side == A
    ensures r.Ok? && side == Some("B") ==> r.value.OneSide? && r.value.side == B
    ensures r.Ok? && side != Some("A") && side != Some("B") ==> r.value.BothSides?
    ensures r.Ok? && r.value.OneSide? ==> forall k :: 0 <= k < |r.value.rows| ==>
      1 <= r.value.rows[k].id <= |answers| && answers[r.value.rows[k].id - 1].side == r.value.side
    ensures r.Ok? ==> var n := if limit.Some? then limit.value else 10;
      match r.value
      case OneSide(s, rows) => rows == TopRows(answers, qid, s, n)
      case BothSides(topA, topB) => topA == TopRows(answers, qid, A, n) && topB == TopRows(answers, qid, B, n)
  {
    if BadId(qid) then Err(Respond(400, "Invalid question id"))
    else
      assert Some("A") != Some("B") by { assert "A"[0] != "B"[0]; }
      var n := if limit.Some? then limit.value else 10;
      if side == Some("A") then Ok(OneSide(A, TopRows(answers, qid, A, n)))
      else if side == Some("B") then Ok(OneSide(B, TopRows(answers, qid, B, n)))
      else Ok(BothSides(TopRows(answers, qid, A, n), TopRows(answers, qid, B, n)))
  }

  /** The arguments listAnswers passes to listByQuestion. */
  datatype ListArgs = ListArgs(qid: Num, side: Option<string>, sort: string, limit: Num, offset: Num)

  /** `Math.min(x, 50)`: NaN stays NaN. */
  function MinFifty(x: Num): (r: Num)
    ensures r.NaN? <==> x.NaN?
    ensures r.Finite? ==> r.value <= 50.0 && r.value <= x.value && (r.value == x.value || r.value == 50.0)
  {
    match x
    case NaN => NaN
    case Finite(v) => if v < 50.0 then Finite(v) else Finite(50.0)
  }

  /** listAnswers: 400 for a bad id; the sort defaults to "new", the limit
      to 20 and is capped at 50, the offset defaults to 0; the side is
      passed through unchecked. */
  function ListAnswers(qid: Num, side: Option<string>, sort: Option<string>, limit: Option<Num>, offset: Option<Num>)
    : (r: Result<ListArgs, Outcome>)
    ensures r.Err? <==> BadId(qid)
    ensures r.Err? ==> r.error == Respond(400, "Invalid question id")
    ensures r.Ok? ==> r.value.qid == qid && r.value.side == side
    ensures r.Ok? ==> r.value.sort == (if sort.Some? then sort.value else "new")
    ensures r.Ok? ==> r.value.offset == (if offset.Some? then offset.value else Finite(0.0))
    ensures r.Ok? && limit.None? ==> r.value.limit == Finite(20.0)
    ensures r.Ok? && r.value.limit.Finite? ==> r.value.limit.value <= 50.0
    ensures r.Ok? && limit.Some? && limit.value.Finite? && limit.value.value <= 50.0 ==> r.value.limit == limit.value
    ensures r.Ok? && limit.Some? && limit.value.Finite? && limit.value.value > 50.0 ==> r.value.limit == Finite(50.0)
    ensures r.Ok? && limit == Some(NaN) ==> r.value.limit == NaN
  {
    if BadId(qid) then Err(Respond(400, "Invalid question id"))
    else
      Ok(ListArgs(qid, side, if sort.Some? then sort.value else "new",
                  MinFifty(if limit.Some? then limit.value else Finite(20.0)),
                  if offset.Some? then offset.value else Finite(0.0)))
  }

  /** `SELECT side, COUNT(*) ... WHERE question_id = ? GROUP BY side`, read
      for one side (0 when the side has no row). */
  function SideCount(answers: seq<Answer>, questionId: int, side: Side): (n: nat)
    ensures n <= |answers|
  {
    if answers == [] then 0
    else
      var last := answers[|answers| - 1];
      SideCount(answers[..|answers| - 1], questionId, side) + (if last.questionId == questionId && last.side == side then 1 else 0)
  }

  /** How many answers the question has. */
  function QuestionCount(answers: seq<Answer>, questionId: int): (n: nat)
  {
    if answers == [] then 0
    else QuestionCount(answers[..|answers| - 1], questionId) + (if answers[|answers| - 1].questionId == questionId then 1 else 0)
  }

  /** The two side counts cover every answer of the question once. */
  lemma {:induction false} SidesPartition(answers: seq<Answer>, questionId: int)
    ensures SideCount(answers, questionId, A) + SideCount(answers, questionId, B) == QuestionCount(answers, questionId)
  {
    if answers != [] {
      SidesPartition(answers[..|answers| - 1], questionId);
    }
  }

  /** `Math.round(c * 10000 / total) / 100` in hundredths, 0 when there are
      no answers: the nearest whole number of hundredths, halves rounded up. */
  function Percent(c: nat, total: nat): (p: nat)
    ensures total == 0 ==> p == 0
    ensures total > 0 ==> 2 * total * p <= 20000 * c + total < 2 * total * (p + 1)
  {
    if total == 0 then 0
    else
      var p := (20000 * c + total) / (2 * total);
      p
  }

  /** A share rounds to at most 100.00%. */
  lemma PercentAtMostAll(c: nat, total: nat)
    requires c <= total
    ensures Percent(c, total) <= 10000
  {
    if total > 0 {
      var p := Percent(c, total);
      assert 2 * total * p <= 20000 * c + total <= 20000 * total + total;
      assert 2 * total * p < 2 * total * 10001;
      MulLessCancel(2 * total, p, 10001);
    }
  }

  lemma MulLessCancel(t: nat, x: nat, y: nat)
    requires t > 0 && t * x < t * y
    ensures x < y
  {
    assert t * y - t * x == t * (y - x);
  }

  /** The two percentages of a question with answers add up to 100.00%, or
      100.01% when both are rounded-up halves. */
  lemma {:induction false} PercentagesSum(a: nat, b: nat)
    ensures var t := a + b;
      t > 0 ==> Percent(a, t) + Percent(b, t) == 10000 || Percent(a, t) + Percent(b, t) == 10001
  {
    if a + b == 0 {
      return;
    }
    var t := a + b;
    var u := 2 * t;
    var pa, pb := Percent(a, t), Percent(b, t);
    Distribute(u, pa, pb);
    var sum := u * (pa + pb);
    assert sum == u * pa + u * pb;
    assert u * pa <= 20000 * a + t && 20000 * a + t < u * pa + u;
    assert u * pb <= 20000 * b + t && 20000 * b + t < u * pb + u by {
      Distribute(u, pb, 1);
    }
    assert sum < u * 10002;
    MulLessCancel(u, pa + pb, 10002);
    assert u * 9999 < sum;
    MulLessCancel(u, 9999, pa + pb);
  }

  lemma Distribute(x: nat, y: nat, z: nat)
    ensures x * (y + z) == x * y + x * z
  {
  }

  /** One answer for A and two for B give 33.33% and 66.67%. */
  lemma PercentExample()
    ensures Percent(1, 3) == 3333 && Percent(2, 3) == 6667
  {
  }

  /** The body of getResults. */
  datatype Results = Results(status: Status, question: Question, totalA: nat, totalB: nat, total: nat,
                             pctA: nat, pctB: nat)

  /** getResults: 400 for a bad id, 404 for an unknown question, else the
      side counts and their percentages. */
  function GetResults(qs: seq<Question>, answers: seq<Answer>, qid: Num): (r: Result<Results, Outcome>)
    ensures r == Err(Respond(400, "Invalid question id")) <==> BadId(qid)
    ensures r.Err? ==> r.error in {Respond(400, "Invalid question id"), Respond(404, "Question not found")}
    ensures r.Ok? <==> !BadId(qid) && RowId(qid).Some? && RowId(qid).value <= |qs|
    ensures r.Ok? ==> var id := RowId(qid).value;
      r.value.question == qs[id - 1] && r.value.status == qs[id - 1].status
      && r.value.totalA == SideCount(answers, id, A) && r.value.totalB == SideCount(answers, id, B)
      && r.value.total == QuestionCount(answers, id)
      && (r.value.total == 0 ==> r.value.pctA == 0 && r.value.pctB == 0)
      && r.value.pctA == Percent(r.value.totalA, r.value.total)
      && r.value.pctB == Percent(r.value.totalB, r.value.total)
      && (r.value.total > 0 ==> r.value.pctA + r.value.pctB in {10000, 10001})
  {
    if BadId(qid) then Err(Respond(400, "Invalid question id"))
    else match RowId(qid)
      case None => Err(Respond(404, "Question not found"))
      case Some(id) =>
        if id > |qs| then Err(Respond(404, "Question not found"))
        else
          var a := SideCount(answers, id, A);
          var b := SideCount(answers, id, B);
          SidesPartition(answers, id);
          PercentagesSum(a, b);
          var q := qs[id - 1];
          Ok(Results(q.status, q, a, b, a + b, Percent(a, a + b), Percent(b, a + b)))
  }

  /** The body of getMyAnswer. */
  datatype MyAnswer = MyAnswer(answered: bool, answer: Option<Answer>)

  /** getMyAnswer, given the rows its lookup returns: the id is checked
      (400) before the caller (401); `answered` is whether a row exists. */
  function GetMyAnswer(qid: Num, user: Option<int>, rows: seq<Answer>): (r: Result<MyAnswer, Outcome>)
    ensures BadId(qid) ==> r == Err(Respond(400, "Invalid question id"))
    ensures !BadId(qid) && user.None? ==> r == Err(Respond(401, "Authentication required"))
    ensures r.Ok? <==> !BadId(qid) && user.Some?
    ensures r.Ok? ==> (r.value.answered <==> rows != []) && (r.value.answered <==> r.value.answer.Some?)
    ensures r.Ok? && rows != [] ==> r.value.answer == Some(rows[0])
  {
    if BadId(qid) then Err(Respond(400, "Invalid question id"))
    else if user.None? then Err(Respond(401, "Authentication required"))
    else
      var answer := if rows == [] then None else Some(rows[0]);
      Ok(MyAnswer(answer.Some?, answer))
  }

  /** getMyAnswer as written: the answers model exports no `getMyAnswer`,
      so past the two checks the call throws a TypeError, which the handler
      catches and answers with 500. */
  function GetMyAnswerAsWritten(qid: Num, user: Option<int>): (r: Result<MyAnswer, Outcome>)
    ensures r.Err?
    ensures BadId(qid) ==> r == Err(Respond(400, "Invalid question id"))
    ensures !BadId(qid) && user.None? ==> r == Err(Respond(401, "Authentication required"))
    ensures !BadId(qid) && user.Some? ==> r == Err(Respond(500, "Internal Server Error"))
  {
    if BadId(qid) then Err(Respond(400, "Invalid question id"))
    else if user.None? then Err(Respond(401, "Authentication required"))
    else Err(Respond(500, "Internal Server Error"))
  }

  /** As written the route never answers 200: every request the corrected
      handler answers is a 500, and the refusals agree.  Question 1 asked by
      user 7 with no answer shows it. */
  lemma GetMyAnswerAlwaysFails(qid: Num, user: Option<int>, rows: seq<Answer>)
    ensures GetMyAnswerAsWritten(qid, user).Err?
    ensures GetMyAnswer(qid, user, rows).Ok?
            <==> GetMyAnswerAsWritten(qid, user) == Err(Respond(500, "Internal Server Error"))
    ensures GetMyAnswer(qid, user, rows).Err? ==> GetMyAnswerAsWritten(qid, user) == GetMyAnswer(qid, user, rows)
    ensures GetMyAnswerAsWritten(Finite(1.0), Some(7)) == Err(Respond(500, "Internal Server Error"))
            && GetMyAnswer(Finite(1.0), Some(7), []) == Ok(MyAnswer(false, None))
  {
    assert !BadId(Finite(1.0));
  }
}
