/**
 * actions/dashboard.js: insight generation from one completion call, and the
 * read-through lookup of the caller's industry insight.
 */
module Dashboard {
  import opened Wrappers
  import opened FenceText
  import opened Records
  import opened Replies
  import opened Db

  /**
   * `generateAIInsights`: the cleaned reply parsed as an insight payload;
   * every failure, of the call or of the parse, is the one wrapped error.
   */
  function GenerateAIInsights(reply: Completion, parse: string -> Option<Insights>): (r: Result<Insights, Error>)
    ensures r.Failure? ==> r.error == InsightGenerationFailed
    ensures reply.CallFailed? ==> r.Failure?
    ensures r.Success? ==> reply.Reply? && parse(CleanText(ReplyText(reply))) == Some(r.value)
    ensures reply.Reply? && parse(CleanText(ReplyText(reply))).Some? ==> r.Success?
  {
    match DecodeReply(reply, parse)
    case Some(payload) => Success(payload)
    case None => Failure(InsightGenerationFailed)
  }

  /**
   * `getIndustryInsights`: the caller's industry row, created on a miss.
   * `reply` is the outcome of the generation call made on a miss; `writeFault`
   * is the store's error if the create throws.
   */
  method GetIndustryInsights(
    db: Store, identity: Option<string>, reply: Completion,
    parse: string -> Option<Insights>, writeFault: Option<string>, now: int)
    returns (r: Result<IndustryInsight, Error>)
    requires db.Valid()
    modifies db
    ensures db.Valid()
    ensures db.users == old(db.users) && db.assessments == old(db.assessments)
    // the identity checks come first and touch nothing
    ensures !Authenticated(identity) ==> r == Failure(Unauthorized)
    ensures Authenticated(identity) && identity.value !in db.users ==> r == Failure(UserNotFound)
    ensures Authenticated(identity) && identity.value in db.users && !HasIndustry(db.users[identity.value])
      ==> r == Failure(IndustryNotSet)
    ensures r.Failure? ==> db.insights == old(db.insights)
    // a success is the row of the caller's industry, and no other row changes
    ensures r.Success? ==>
      && Authenticated(identity) && identity.value in db.users
      && HasIndustry(db.users[identity.value])
      && r.value.industry == db.users[identity.value].industry.value
      && db.insights == old(db.insights)[r.value.industry := r.value]
    // a hit is returned as stored, however stale, and nothing is generated
    ensures Authenticated(identity) && identity.value in db.users && HasIndustry(db.users[identity.value])
      && db.users[identity.value].industry.value in old(db.insights)
      ==> r == Success(old(db.insights)[db.users[identity.value].industry.value])
          && db.insights == old(db.insights)
    // a miss creates exactly one row from the generated payload, due in a week
    ensures r.Success? && r.value.industry !in old(db.insights) ==>
      && GenerateAIInsights(reply, parse) == Success(r.value.insights)
      && r.value.lastUpdated == now && r.value.nextUpdate == now + WEEK_MS
    ensures Authenticated(identity) && identity.value in db.users && HasIndustry(db.users[identity.value])
      && db.users[identity.value].industry.value !in old(db.insights)
      ==> var industry := db.users[identity.value].industry.value;
          match GenerateAIInsights(reply, parse)
          case Failure(_) => r == Failure(InsightGenerationFailed)
          case Success(payload) =>
            if writeFault.Some? then r == Failure(StoreWriteFailed(writeFault.value))
            else r == Success(NewInsight(industry, payload, now))
  {
    if !Authenticated(identity) {
      return Failure(Unauthorized);
    }
    if identity.value !in db.users {
      return Failure(UserNotFound);
    }
    var user := db.users[identity.value];
    if !HasIndustry(user) {
      return Failure(IndustryNotSet);
    }
    var industry := user.industry.value;
    if industry !in db.insights {
      var generated := GenerateAIInsights(reply, parse);
      if generated.Failure? {
        return Failure(generated.error);
      }
      if writeFault.Some? {
        return Failure(StoreWriteFailed(writeFault.value));
      }
      var row := NewInsight(industry, generated.value, now);
      db.insights := db.insights[industry := row];
      return Success(row);
    }
    return Success(db.insights[industry]);
  }
}
