/** The like routes: the middlewares of src/middlewares/like.middleware.ts
    and the replies of the debate controller's likeAnswer and unlikeAnswer.
    The caller is the authenticated user's id. */
module LikeMw {
  import opened Common
  import opened Strings
  import opened Store
  import opened Validators
  import Answers

  /** validateAnswerIdParam: `isInt({ min: 1 })`, then `toInt()`; anything
      else is answered 400.  On success, the id the later handlers use. */
  function ValidateAnswerIdParam(param: string): (r: Result<int, Outcome>)
    ensures r.Ok? <==> IntText(param).Some? && IntText(param).value >= 1
    ensures r.Ok? ==> r.value >= 1 && ParseIntPrefix(param) == Some(r.value)
    ensures r.Err? ==> r.error == Respond(400, "Invalid answer id")
  {
    match IntText(param)
    case Some(v) =>
      if v >= 1 then
        ParseIntAgrees(param);
        Ok(v)
      else Err(Respond(400, "Invalid answer id"))
    case None => Err(Respond(400, "Invalid answer id"))
  }

  /** Every positive id written in decimal, signed or not, is accepted as
      itself; zero and negative ids are refused. */
  lemma AnswerIdParamExamples(n: nat)
    ensures n >= 1 ==> ValidateAnswerIdParam(NatText(n)) == Ok(n)
    ensures n >= 1 ==> ValidateAnswerIdParam("+" + NatText(n)) == Ok(n)
    ensures ValidateAnswerIdParam("-" + NatText(n)).Err?
    ensures ValidateAnswerIdParam(NatText(0)).Err?
  {
    IntTextOfNumber(n);
    IntTextOfNumber(0);
  }

  /** preventSelfLike: 404 for an unknown answer, 403 when its (truthy)
      user_id is the caller's id, else on. */
  function PreventSelfLike(answers: seq<Answer>, answerId: int, callerId: int): (r: Outcome)
    ensures r == Respond(404, "Answer not found") <==> !(1 <= answerId <= |answers|)
    ensures r == Respond(403, "You cannot like your own answer") <==>
      1 <= answerId <= |answers| && callerId != 0 && answers[answerId - 1].userId == Some(callerId)
    ensures r == Next || r.status in {403, 404}
  {
    if !(1 <= answerId <= |answers|) then Respond(404, "Answer not found")
    else
      var owner := answers[answerId - 1].userId;
      if owner.Some? && owner.value != 0 && owner.value == callerId then
        Respond(403, "You cannot like your own answer")
      else Next
  }

  /** Anonymous answers may be liked by anyone; an owner may not like their
      own answer, but anyone else may. */
  lemma SelfLikeOnly(answers: seq<Answer>, answerId: int, owner: int, callerId: int)
    requires 1 <= answerId <= |answers| && owner != 0 && callerId != owner
    ensures answers[answerId - 1].userId.None? ==> PreventSelfLike(answers, answerId, callerId) == Next
    ensures answers[answerId - 1].userId == Some(owner) ==>
      PreventSelfLike(answers, answerId, owner) != Next
      && PreventSelfLike(answers, answerId, callerId) == Next
  {
  }

  /** likeAnswerMw as written: the pair goes into the like set and the
      request moves on; `res.locals.liked` is never set. */
  method LikeAnswerMw(db: Db, answerId: int, callerId: int) returns (o: Outcome)
    modifies db`likes
    ensures o == Next
    ensures db.likes == old(db.likes) + {(answerId, callerId)}
  {
    Answers.LikeAnswer(db, answerId, callerId);
    return Next;
  }

  /** likeAnswerMw reporting whether the INSERT IGNORE added a row
      (`affectedRows > 0`), the value the controller reads. */
  method LikeAnswerMwReporting(db: Db, answerId: int, callerId: int) returns (o: Outcome, liked: bool)
    modifies db`likes
    ensures o == Next
    ensures db.likes == old(db.likes) + {(answerId, callerId)}
    ensures liked <==> (answerId, callerId) !in old(db.likes)
  {
    liked := (answerId, callerId) !in db.likes;
    Answers.LikeAnswer(db, answerId, callerId);
    return Next, liked;
  }

  /** unlikeAnswerMw: the pair leaves the like set. */
  method UnlikeAnswerMw(db: Db, answerId: int, callerId: int) returns (o: Outcome)
    modifies db`likes
    ensures o == Next
    ensures db.likes == old(db.likes) - {(answerId, callerId)}
  {
    Answers.UnlikeAnswer(db, answerId, callerId);
    return Next;
  }

  /** The likeAnswer controller: 201 when `res.locals.liked` is truthy
      (None: never set), else 200. */
  function LikeReply(liked: Option<bool>): (r: Outcome)
    ensures r == Respond(201, "Liked") <==> liked == Some(true)
    ensures r != Respond(201, "Liked") ==> r == Respond(200, "Already liked")
  {
    if liked == Some(true) then Respond(201, "Liked") else Respond(200, "Already liked")
  }

  /** The request gets past validateAnswerIdParam and preventSelfLike. */
  predicate LikeAdmitted(answers: seq<Answer>, param: string, callerId: int) {
    ValidateAnswerIdParam(param).Ok? && PreventSelfLike(answers, ValidateAnswerIdParam(param).value, callerId) == Next
  }

  /** The like route as written (validateAnswerIdParam, preventSelfLike,
      likeAnswerMw, likeAnswer): the reply and the like set after it. */
  function LikeRoute(answers: seq<Answer>, likes: set<(int, int)>, param: string, callerId: int)
    : (r: (Outcome, set<(int, int)>))
    ensures r.1 == likes || (r.0 == Respond(200, "Already liked") && r.1 != {})
    ensures LikeAdmitted(answers, param, callerId)
            ==> r == (Respond(200, "Already liked"), likes + {(ValidateAnswerIdParam(param).value, callerId)})
    ensures ValidateAnswerIdParam(param).Err? ==> r == (Respond(400, "Invalid answer id"), likes)
    ensures ValidateAnswerIdParam(param).Ok? && !LikeAdmitted(answers, param, callerId)
            ==> r == (PreventSelfLike(answers, ValidateAnswerIdParam(param).value, callerId), likes)
                && r.0.status in {403, 404}
  {
    match ValidateAnswerIdParam(param)
    case Err(o) => (o, likes)
    case Ok(id) =>
      var guard := PreventSelfLike(answers, id, callerId);
      if guard != Next then (guard, likes)
      else (LikeReply(None), likes + {(id, callerId)})
  }

  /** As written, the route never answers 201, even when it creates the
      like: liking answer 1 (anonymous) with an empty like set adds the
      pair and answers "Already liked". */
  lemma LikeRouteNeverCreated(answers: seq<Answer>, likes: set<(int, int)>, param: string, callerId: int)
    ensures LikeRoute(answers, likes, param, callerId).0 != Respond(201, "Liked")
    ensures var one := [Answer(1, None, None, None, A, "x", 0)];
      ValidateAnswerIdParam("1") == Ok(1)
      && LikeRoute(one, {}, "1", 7) == (Respond(200, "Already liked"), {(1, 7)})
  {
    assert "Liked"[0] != "Already liked"[0];
    var one := [Answer(1, None, None, None, A, "x", 0)];
    ParamOne();
    LikeOneAnonymous(one);
  }

  lemma ParamOne()
    ensures ValidateAnswerIdParam("1") == Ok(1)
  {
    IntTextOfNumber(1);
    assert NatText(1) == "1";
  }

  lemma LikeOneAnonymous(one: seq<Answer>)
    requires one == [Answer(1, None, None, None, A, "x", 0)]
    requires ValidateAnswerIdParam("1") == Ok(1)
    ensures LikeRoute(one, {}, "1", 7) == (Respond(200, "Already liked"), {(1, 7)})
  {
    assert PreventSelfLike(one, 1, 7) == Next;
    assert {} + {(1, 7)} == {(1, 7)};
  }

  /** The like route with the reporting middleware. */
  function LikeRouteCorrected(answers: seq<Answer>, likes: set<(int, int)>, param: string, callerId: int)
    : (r: (Outcome, set<(int, int)>))
  {
    match ValidateAnswerIdParam(param)
    case Err(o) => (o, likes)
    case Ok(id) =>
      var guard := PreventSelfLike(answers, id, callerId);
      if guard != Next then (guard, likes)
      else (LikeReply(Some((id, callerId) !in likes)), likes + {(id, callerId)})
  }

  /** With the flag reported, 201 "Liked" means exactly that a new like went
      in, and 200 "Already liked" that the like existed already. */
  lemma LikeRouteCorrectedReports(answers: seq<Answer>, likes: set<(int, int)>, param: string, callerId: int)
    ensures var (o, after) := LikeRouteCorrected(answers, likes, param, callerId);
      (o == Respond(201, "Liked") <==> likes < after)
      && (o == Respond(200, "Already liked") <==>
            ValidateAnswerIdParam(param).Ok?
            && PreventSelfLike(answers, ValidateAnswerIdParam(param).value, callerId) == Next
            && (ValidateAnswerIdParam(param).value, callerId) in likes)
      && (likes <= after)
  {
  }

  /** The unlike route (validateAnswerIdParam, unlikeAnswerMw,
      unlikeAnswer): no existence or ownership check. */
  function UnlikeRoute(likes: set<(int, int)>, param: string, callerId: int): (r: (Outcome, set<(int, int)>))
    ensures r.0 == Respond(200, "Unliked") <==> ValidateAnswerIdParam(param).Ok?
    ensures r.1 <= likes && |likes - r.1| <= 1
    ensures r.1 == if ValidateAnswerIdParam(param).Ok?
                   then likes - {(ValidateAnswerIdParam(param).value, callerId)} else likes
  {
    match ValidateAnswerIdParam(param)
    case Err(o) => (o, likes)
    case Ok(id) =>
      assert likes - (likes - {(id, callerId)}) <= {(id, callerId)};
      (Respond(200, "Unliked"), likes - {(id, callerId)})
  }

  /** Unliking right after a like that created the pair restores the set. */
  lemma UnlikeUndoesLike(answers: seq<Answer>, likes: set<(int, int)>, param: string, callerId: int)
    requires LikeRouteCorrected(answers, likes, param, callerId).0 == Respond(201, "Liked")
    ensures UnlikeRoute(LikeRouteCorrected(answers, likes, param, callerId).1, param, callerId)
            == (Respond(200, "Unliked"), likes)
  {
    var id := ValidateAnswerIdParam(param).value;
    assert (id, callerId) !in likes;
    assert likes + {(id, callerId)} - {(id, callerId)} == likes;
  }
}
