/**
 * actions/interview.js: quiz generation, grading and saving a quiz attempt,
 * and listing the caller's attempts.
 */
module Interview {
  import opened Wrappers
  import opened FenceText
  import opened Records
  import opened Replies
  import opened Db
  import opened Grading
  import opened AssessmentListing

  /**
   * `generateQuiz`: the question list parsed from the cleaned reply.
   * `parseQuiz` stands for `JSON.parse` followed by reading `.questions`.
   */
  method GenerateQuiz(
    db: Store, identity: Option<string>, reply: Completion,
    parseQuiz: string -> Option<seq<Question>>)
    returns (r: Result<seq<Question>, Error>)
    ensures !Authenticated(identity) ==> r == Failure(Unauthorized)
    ensures Authenticated(identity) && identity.value !in db.users ==> r == Failure(UserNotFound)
    ensures r.Success? ==>
      && Authenticated(identity) && identity.value in db.users
      && reply.Reply? && parseQuiz(CleanText(ReplyText(reply))) == Some(r.value)
    ensures Authenticated(identity) && identity.value in db.users ==>
      (r.Success? <==> reply.Reply? && parseQuiz(CleanText(ReplyText(reply))).Some?)
    ensures Authenticated(identity) && identity.value in db.users && r.Failure?
      ==> r.error == QuizGenerationFailed
  {
    if !Authenticated(identity) {
      return Failure(Unauthorized);
    }
    if identity.value !in db.users {
      return Failure(UserNotFound);
    }
    var questions := DecodeReply(reply, parseQuiz);
    if questions.None? {
      return Failure(QuizGenerationFailed);
    }
    return Success(questions.value);
  }

  /**
   * `saveQuizResult`.  `tipReply` is the outcome of the tip call, consulted
   * only when some answer is wrong; `writeFails` says that the create throws.
   */
  method SaveQuizResult(
    db: Store, identity: Option<string>, questions: seq<Question>, answers: seq<JsValue>,
    score: real, tipReply: Completion, writeFails: bool, now: int)
    returns (r: Result<Assessment, Error>)
    requires db.Valid()
    modifies db
    ensures db.Valid()
    ensures db.users == old(db.users) && db.insights == old(db.insights)
    ensures !Authenticated(identity) ==> r == Failure(Unauthorized)
    ensures Authenticated(identity) && identity.value !in db.users ==> r == Failure(UserNotFound)
    ensures r.Failure? ==> db.assessments == old(db.assessments)
    // the tip never decides the outcome: only the save itself can fail
    ensures Authenticated(identity) && identity.value in db.users ==>
      (r.Success? <==> !writeFails) && (r.Failure? ==> r.error == SaveQuizFailed)
    // exactly one row is appended: the caller's, with the score as given and the graded results
    ensures r.Success? ==>
      && Authenticated(identity) && identity.value in db.users
      && db.assessments == old(db.assessments) + [r.value]
      && r.value.userId == db.users[identity.value].id
      && r.value.quizScore == score
      && r.value.questions == Grade(questions, answers)
      && r.value.category == "Technical"
      && r.value.createdAt == now
    // the tip: none when every answer is right, else what the tip call yields
    ensures r.Success? && WrongAnswers(Grade(questions, answers)) == [] ==> r.value.improvementTip == None
    ensures r.Success? && WrongAnswers(Grade(questions, answers)) != [] ==>
      r.value.improvementTip == TipFromReply(tipReply)
    ensures r.Success? && r.value.improvementTip.Some? ==>
      && WrongAnswers(Grade(questions, answers)) != []
      && r.value.improvementTip.value != [] && Trimmed(r.value.improvementTip.value)
  {
    if !Authenticated(identity) {
      return Failure(Unauthorized);
    }
    if identity.value !in db.users {
      return Failure(UserNotFound);
    }
    var user := db.users[identity.value];
    var questionResults := Grade(questions, answers);
    var wrongAnswers := WrongAnswers(questionResults);

    var improvementTip: Option<string> := None;
    if |wrongAnswers| > 0 {
      improvementTip := TipFromReply(tipReply);
    }

    if writeFails {
      return Failure(SaveQuizFailed);
    }
    var assessment := Assessment(user.id, score, questionResults, "Technical", improvementTip, now);
    db.assessments := db.assessments + [assessment];
    return Success(assessment);
  }

  /** `getAssessments`: the caller's rows, every one of them, oldest first. */
  method GetAssessments(db: Store, identity: Option<string>) returns (r: Result<seq<Assessment>, Error>)
    ensures !Authenticated(identity) ==> r == Failure(Unauthorized)
    ensures Authenticated(identity) && identity.value !in db.users ==> r == Failure(UserNotFound)
    ensures Authenticated(identity) && identity.value in db.users ==> r.Success?
    ensures r.Success? ==>
      && Authenticated(identity) && identity.value in db.users
      && SortedByCreatedAt(r.value)
      && forall a :: multiset(r.value)[a] ==
           if a.userId == db.users[identity.value].id then multiset(db.assessments)[a] else 0
  {
    if !Authenticated(identity) {
      return Failure(Unauthorized);
    }
    if identity.value !in db.users {
      return Failure(UserNotFound);
    }
    var user := db.users[identity.value];
    var rows := SortByCreatedAt(OwnedBy(db.assessments, user.id));
    SortByCreatedAtSpec(OwnedBy(db.assessments, user.id));
    return Success(rows);
  }
}
