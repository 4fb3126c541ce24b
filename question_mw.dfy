/** The question middlewares (src/middlewares/question.middleware.ts):
    the create-question validators, loading today's active question, and
    the active-question guard of the answer route. */
module QuestionMw {
  import opened Common
  import opened Strings
  import opened Calendar
  import opened Store
  import opened Validators
  import Questions

  /** validateCreateQuestion: text of 5 to 500 characters and two options
      of 1 to 150, each a string; otherwise 400 with one "Invalid value"
      per failed check. */
  function ValidateCreateQuestion(text: Field, optionA: Field, optionB: Field): (v: Verdict)
    ensures v == Proceed <==>
      text.Str? && 5 <= MeasuredLength(text.s) <= 500
      && optionA.Str? && 1 <= MeasuredLength(optionA.s) <= 150
      && optionB.Str? && 1 <= MeasuredLength(optionB.s) <= 150
    ensures v.Rejected? ==> v.messages == FieldFailures(text, 5, 500) + FieldFailures(optionA, 1, 150)
                                          + FieldFailures(optionB, 1, 150)
  {
    var t, a, b := TextChecks(text, 5, 500), TextChecks(optionA, 1, 150), TextChecks(optionB, 1, 150);
    FailuresConcat(t, a);
    FailuresConcat(t + a, b);
    TextFailures(text, 5, 500);
    TextFailures(optionA, 1, 150);
    TextFailures(optionB, 1, 150);
    Judge(t + a + b)
  }

  /** A missing text fails all three of its checks, a null text the string
      and length checks only (its string form is empty). */
  lemma MissingTextMessages()
    ensures ValidateCreateQuestion(Absent, Str("a"), Str("b")) == Rejected([DefaultMessage, DefaultMessage, DefaultMessage])
    ensures ValidateCreateQuestion(Null, Str("a"), Str("b")) == Rejected([DefaultMessage, DefaultMessage])
  {
    assert MeasuredLength("a") == 1 && MeasuredLength("b") == 1 && MeasuredLength("") == 0;
    assert FieldFailures(Str("a"), 1, 150) == [] && FieldFailures(Str("b"), 1, 150) == [];
    assert FieldFailures(Absent, 5, 500) == [DefaultMessage, DefaultMessage, DefaultMessage];
    assert FieldFailures(Null, 5, 500) == [DefaultMessage, DefaultMessage];
  }

  /** loadActiveQuestion: today's active question, after a rollover when
      needed (Questions.GetOrActivateActive); 404 when there is none. */
  method LoadActiveQuestion(db: Db, today: Date, aFirst: bool) returns (o: Outcome, question: Option<nat>)
    requires Questions.StoredDates(db.questions) && Questions.StoredDate(today)
    modifies db`questions, db`stats
    ensures db.questions == if Questions.NeedsRollover(old(db.questions), today)
                            then Questions.Rollover(old(db.questions), today) else old(db.questions)
    ensures db.stats == if Questions.NeedsRollover(old(db.questions), today)
                        then Questions.SettleLatest(old(db.questions), db.answers, old(db.stats), aFirst)
                        else old(db.stats)
    ensures question == Questions.LatestActive(db.questions)
    ensures o == Next <==> question.Some?
    ensures o != Next ==> o == Respond(404, "No active question")
  {
    question := Questions.GetOrActivateActive(db, today, aFirst);
    if question.None? {
      return Respond(404, "No active question"), None;
    }
    return Next, question;
  }

  /** requireActiveQuestionById: the `:id` parameter through `toInt()`
      (parseInt), then the row: 404 when missing, 409 unless active; on
      success the index of the question put in `res.locals`.  A text with
      no leading digits becomes NaN, and `WHERE id = NaN` is an SQL error,
      answered 500.  The 400 answer needs a missing parameter, which the
      `:id` route never has. */
  function RequireActiveQuestionById(qs: seq<Question>, idParam: Option<string>): (r: Result<nat, Outcome>)
    ensures idParam.None? <==> r == Err(Respond(400, "Invalid question id"))
    ensures idParam.Some? ==> r == ActiveById(qs, ParseIntPrefix(idParam.value))
  {
    if idParam.None? then Err(Respond(400, "Invalid question id"))
    else ActiveById(qs, ParseIntPrefix(idParam.value))
  }

  /** The guard once the id is converted (None for NaN). */
  function ActiveById(qs: seq<Question>, id: Option<int>): (r: Result<nat, Outcome>)
    ensures id.None? <==> r == Err(Respond(500, "Internal Server Error"))
    ensures r == Err(Respond(404, "Question not found")) <==> id.Some? && !(1 <= id.value <= |qs|)
    ensures r == Err(Respond(409, "Question is not active")) <==>
      id.Some? && 1 <= id.value <= |qs| && qs[id.value - 1].status != Active
    ensures r.Ok? ==> (r.value < |qs| && qs[r.value].status == Active && id == Some(r.value + 1))
  {
    match id
    case None => Err(Respond(500, "Internal Server Error"))
    case Some(n) =>
      match Questions.GetById(qs, n)
      case None => Err(Respond(404, "Question not found"))
      case Some(q) =>
        if q.status != Active then Err(Respond(409, "Question is not active"))
        else Ok(n - 1)
  }

  /** Only active questions pass: the decimal id of an active question
      passes (trailing text after the digits is ignored), and any other
      status is turned away. */
  lemma OnlyActivePass(qs: seq<Question>, i: nat, tail: string)
    requires i < |qs|
    requires tail != [] ==> !IsDigit(tail[0])
    ensures qs[i].status == Active ==> RequireActiveQuestionById(qs, Some(NatText(i + 1) + tail)) == Ok(i)
    ensures qs[i].status != Active ==>
      RequireActiveQuestionById(qs, Some(NatText(i + 1) + tail)) == Err(Respond(409, "Question is not active"))
  {
    var text := NatText(i + 1) + tail;
    ParseIntStopsAtNonDigit(i + 1, tail);
    assert RequireActiveQuestionById(qs, Some(text)) == ActiveById(qs, Some(i + 1));
    assert Questions.GetById(qs, i + 1) == Some(qs[i]);
  }
}
