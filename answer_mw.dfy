/** The answer middlewares (src/middlewares/answer.middleware.ts): the
    create-answer validators and createAnswerMw, which builds the row and
    hands it to the INSERT builder of the answers model. */
module AnswerMw {
  import opened Common
  import opened Store
  import opened Validators
  import SqlBuilder

  const SideMessage := "side must be A or B"

  /** `isIn(['A', 'B'])` on the string form of the value. */
  predicate IsSide(f: Field) {
    FieldText(f) == "A" || FieldText(f) == "B"
  }

  /** The checks of validateCreateAnswer, in declaration order: side
      (`exists`, then `isIn` with its own message), body (`exists`,
      `isString`, `isLength` 1..280), and anonymous_key, skipped when
      missing or null (`optional({ nullable: true })`), else `isString` and
      `isLength` up to 64. */
  function AnswerChecks(side: Field, body: Field, anonKey: Field): (r: seq<Check>)
    ensures |r| == 5 || |r| == 7
  {
    [(Exists(side), DefaultMessage), (IsSide(side), SideMessage)]
    + TextChecks(body, 1, 280)
    + (if anonKey.Absent? || anonKey.Null? then []
       else [(IsStringValue(anonKey), DefaultMessage), (LengthWithin(anonKey, 0, 64), DefaultMessage)])
  }

  /** validateCreateAnswer: on only for side "A" or "B", a body of 1 to 280
      characters, and an anonymous key that is missing, null, or a string of
      at most 64. */
  function ValidateCreateAnswer(side: Field, body: Field, anonKey: Field): (v: Verdict)
    ensures v == Proceed <==>
      (side == Str("A") || side == Str("B"))
      && body.Str? && 1 <= MeasuredLength(body.s) <= 280
      && (anonKey.Str? ==> MeasuredLength(anonKey.s) <= 64)
    ensures v.Rejected? ==> v.messages == SideFailures(side) + FieldFailures(body, 1, 280)
                                          + KeyFailures(anonKey)
  {
    var s := [(Exists(side), DefaultMessage), (IsSide(side), SideMessage)];
    var b := TextChecks(body, 1, 280);
    var k := AnswerChecks(side, body, anonKey)[5..];
    assert AnswerChecks(side, body, anonKey) == s + b + k;
    FailuresConcat(s, b);
    FailuresConcat(s + b, k);
    SideChecks(side);
    TextFailures(body, 1, 280);
    KeyChecks(anonKey, k);
    Judge(AnswerChecks(side, body, anonKey))
  }

  /** The side messages: "Invalid value" when missing, then the isIn
      message unless the value is "A" or "B" (a missing or null side reads
      as the empty string). */
  function SideFailures(side: Field): (r: seq<string>)
    ensures r == [] <==> side == Str("A") || side == Str("B")
  {
    (if side.Absent? then [DefaultMessage] else [])
    + (if !IsSide(side) then [SideMessage] else [])
  }

  /** The anonymous-key messages: none when missing or null. */
  function KeyFailures(anonKey: Field): (r: seq<string>)
    ensures anonKey.Absent? || anonKey.Null? ==> r == []
    ensures anonKey.Str? ==> (r == [] <==> MeasuredLength(anonKey.s) <= 64)
  {
    if anonKey.Str? && MeasuredLength(anonKey.s) > 64 then [DefaultMessage] else []
  }

  lemma SideChecks(side: Field)
    ensures Failures([(Exists(side), DefaultMessage), (IsSide(side), SideMessage)]) == SideFailures(side)
  {
    var c := [(Exists(side), DefaultMessage), (IsSide(side), SideMessage)];
    assert c[1..] == [c[1]] && c[1..][1..] == [];
  }

  lemma KeyChecks(anonKey: Field, k: seq<Check>)
    requires k == (if anonKey.Absent? || anonKey.Null? then []
                   else [(IsStringValue(anonKey), DefaultMessage), (LengthWithin(anonKey, 0, 64), DefaultMessage)])
    ensures Failures(k) == KeyFailures(anonKey)
  {
    if k != [] {
      assert k[1..] == [k[1]] && k[1..][1..] == [];
    }
  }

  /** With a good body and no key, only the side can be refused: a missing
      side is reported twice, a null one once, and a lowercase "a" with the
      side message. */
  lemma SideMessages(side: Field)
    ensures ValidateCreateAnswer(side, Str("x"), Absent)
            == if side == Str("A") || side == Str("B") then Proceed else Rejected(SideFailures(side))
    ensures SideFailures(Absent) == [DefaultMessage, SideMessage]
    ensures SideFailures(Null) == [SideMessage]
    ensures SideFailures(Str("a")) == [SideMessage]
  {
    OneCharBody();
    SideExamples();
    var v := ValidateCreateAnswer(side, Str("x"), Absent);
    if !(side == Str("A") || side == Str("B")) {
      assert v.Rejected?;
      assert v.messages == SideFailures(side) + [] + [];
    }
  }

  lemma OneCharBody()
    ensures MeasuredLength("x") == 1 && FieldFailures(Str("x"), 1, 280) == []
  {
    assert MeasuredLength("x") == 1;
  }

  lemma SideExamples()
    ensures SideFailures(Absent) == [DefaultMessage, SideMessage]
    ensures SideFailures(Null) == [SideMessage]
    ensures SideFailures(Str("a")) == [SideMessage]
  {
    assert FieldText(Absent) == [] && FieldText(Null) == [];
    assert FieldText(Str("a")) == "a" && "a" != "A" && "a" != "B";
  }

  /** The object createAnswerMw hands to `createAnswer`, in its key order:
      a signed-in user's answer carries no anonymous key. */
  function AnswerFields(questionId: int, user: Option<int>, side: Side, body: string, anonKey: Option<string>)
    : (r: SqlBuilder.Fields)
    ensures SqlBuilder.Keys(r) == ["question_id", "user_id", "anonymous_key", "side", "body"]
    ensures SqlBuilder.Defined(r) == r
  {
    var r := [("question_id", SqlBuilder.Int(questionId)),
              ("user_id", if user.Some? then SqlBuilder.Int(user.value) else SqlBuilder.Null),
              ("anonymous_key", if user.Some? || anonKey.None? then SqlBuilder.Null
                                else SqlBuilder.Text(anonKey.value)),
              ("side", SqlBuilder.Text(if side == A then "A" else "B")),
              ("body", SqlBuilder.Text(body))];
    SqlBuilder.DefinedAll(r);
    r
  }

  /** The row the insert stores. */
  function NewAnswer(questionId: int, user: Option<int>, side: Side, body: string, anonKey: Option<string>)
    : (a: Answer)
    ensures a.userId.Some? ==> a.anonymousKey.None?
    ensures a.likesCount == 0 && a.questionId == questionId && a.side == side && a.body == body
  {
    Answer(questionId, user, if user.Some? then None else anonKey, None, side, body, 0)
  }

  /** createAnswerMw: the INSERT through the allow-list builder of `schema`;
      a thrown builder error is answered 500 and stores nothing, otherwise
      the row is appended and its new id is `createdAnswerId`. */
  method CreateAnswerMw(db: Db, schema: SqlBuilder.Schema, questionId: int, user: Option<int>,
                        side: Side, body: string, anonKey: Option<string>)
    returns (o: Outcome, createdAnswerId: Option<int>)
    modifies db`answers
    ensures SqlBuilder.InsertSpec(schema, "answers", AnswerFields(questionId, user, side, body, anonKey)).Err? ==>
      o == Respond(500, "Internal Server Error") && createdAnswerId.None? && db.answers == old(db.answers)
    ensures SqlBuilder.InsertSpec(schema, "answers", AnswerFields(questionId, user, side, body, anonKey)).Ok? ==>
      o == Next && db.answers == old(db.answers) + [NewAnswer(questionId, user, side, body, anonKey)]
      && createdAnswerId == Some(|db.answers|)
  {
    var q := SqlBuilder.InsertRow(schema, "answers", AnswerFields(questionId, user, side, body, anonKey));
    if q.Err? {
      return Respond(500, "Internal Server Error"), None;
    }
    db.answers := db.answers + [NewAnswer(questionId, user, side, body, anonKey)];
    return Next, Some(|db.answers|);
  }

  /** As written, the allow-list has no `anonymous_key` column for answers,
      so every insert throws at that key and every answer is refused with a
      500, whoever sends it. */
  lemma CreateAnswerAlwaysRefused(questionId: int, user: Option<int>, side: Side, body: string, anonKey: Option<string>)
    ensures SqlBuilder.InsertSpec(SqlBuilder.ValidColumns, "answers", AnswerFields(questionId, user, side, body, anonKey))
            == Err(SqlBuilder.InvalidColumn("answers", "anonymous_key"))
  {
    AnswersColumns();
    AnswersFault();
  }

  /** The builder's loop stops at the third key, the first one the
      declared allow-list lacks. */
  lemma AnswersFault()
    ensures SqlBuilder.FirstFault("answers", ["question_id", "user_id", "anonymous_key", "side", "body"],
                                  ["id", "question_id", "user_id", "side", "body", "likes_count", "created_at"])
            == Some(SqlBuilder.InvalidColumn("answers", "anonymous_key"))
  {
    var keys := ["question_id", "user_id", "anonymous_key", "side", "body"];
    var allowed := ["id", "question_id", "user_id", "side", "body", "likes_count", "created_at"];
    AnswerKeysIdentifiers();
    assert keys[0] == allowed[1] && keys[1] == allowed[2];
    assert keys[1..][1..] == ["anonymous_key", "side", "body"];
    assert "anonymous_key" !in allowed by {
      forall k | 0 <= k < |allowed| ensures allowed[k] != "anonymous_key" {
        assert allowed[k][0] != 'a' || allowed[k][1] != 'n';
      }
    }
  }

  /** The `answers` columns of both allow-lists. */
  lemma AnswersColumns()
    ensures "answers" in SqlBuilder.ValidColumns && "answers" in SqlBuilder.CorrectedColumns
    ensures SqlBuilder.ValidColumns["answers"]
            == ["id", "question_id", "user_id", "side", "body", "likes_count", "created_at"]
    ensures SqlBuilder.CorrectedColumns["answers"]
            == ["id", "question_id", "user_id", "side", "body", "likes_count", "created_at", "anonymous_key"]
  {
    assert "answers" != "badges";
  }

  /** The five keys of an answer and the table name are identifiers. */
  lemma AnswerKeysIdentifiers()
    ensures SqlBuilder.IsIdentifier("question_id") && SqlBuilder.IsIdentifier("user_id")
    ensures SqlBuilder.IsIdentifier("anonymous_key") && SqlBuilder.IsIdentifier("side")
    ensures SqlBuilder.IsIdentifier("body") && SqlBuilder.IsIdentifier("answers")
  {
  }

  /** With `anonymous_key` allowed, the insert goes through and binds the
      five values in order; a row never carries both a user and an
      anonymous key. */
  lemma CreateAnswerCorrected(questionId: int, user: Option<int>, side: Side, body: string, anonKey: Option<string>)
    ensures var r := SqlBuilder.InsertSpec(SqlBuilder.CorrectedColumns, "answers",
                                           AnswerFields(questionId, user, side, body, anonKey));
      r.Ok? && |r.value.params| == 5
      && r.value.params[0] == SqlBuilder.Int(questionId)
      && r.value.params[4] == SqlBuilder.Text(body)
      && (r.value.params[1] == SqlBuilder.Null || r.value.params[2] == SqlBuilder.Null)
  {
    var data := AnswerFields(questionId, user, side, body, anonKey);
    AnswersColumns();
    AnswerKeysIdentifiers();
    var allowed := SqlBuilder.CorrectedColumns["answers"];
    assert allowed[1] == "question_id" && allowed[2] == "user_id" && allowed[7] == "anonymous_key";
    assert allowed[3] == "side" && allowed[4] == "body";
    assert forall k :: k in SqlBuilder.Keys(data) ==> SqlBuilder.Fine(k, allowed);
  }
}
