/**
 * actions/user.js: the onboarding transaction that ensures an insight row for
 * the chosen industry and rewrites the profile, and the onboarding check.
 */
module UserActions {
  import opened Wrappers
  import opened Records
  import opened Replies
  import opened Db
  import opened Dashboard

  /** The profile after `tx.user.update`: the four form fields replace the old ones. */
  function WithProfile(u: User, data: ProfileData): User {
    u.(industry := Some(data.industry), experience := data.experience, bio := data.bio, skills := data.skills)
  }

  /**
   * `updateUser`.  The transaction stages its writes and commits them only at
   * the end, so any failure inside it leaves the store as it was.  `reply` is
   * the outcome of the generation call made when the industry has no row;
   * `txFault` says that the store aborts the transaction on its own account
   * (a failed read or write, or the 10-second timeout).
   */
  method UpdateUser(
    db: Store, identity: Option<string>, data: ProfileData, reply: Completion,
    parse: string -> Option<Insights>, txFault: bool, now: int)
    returns (r: Result<User, Error>)
    requires db.Valid()
    modifies db
    ensures db.Valid()
    ensures db.assessments == old(db.assessments)
    ensures !Authenticated(identity) ==> r == Failure(Unauthorized)
    ensures Authenticated(identity) && identity.value !in old(db.users) ==> r == Failure(UserNotFound)
    // atomic: a failure changes nothing, and inside the transaction it is always the one wrapped error
    ensures r.Failure? ==> db.users == old(db.users) && db.insights == old(db.insights)
    ensures Authenticated(identity) && identity.value in old(db.users) && r.Failure?
      ==> r.error == ProfileUpdateFailed
    // the result is the updated user; only that user's four profile fields change
    ensures r.Success? ==>
      && Authenticated(identity) && identity.value in old(db.users)
      && r.value == WithProfile(old(db.users)[identity.value], data)
      && db.users == old(db.users)[identity.value := r.value]
    // an existing row for the target industry is reused as it is
    ensures r.Success? && data.industry in old(db.insights) ==> db.insights == old(db.insights)
    // otherwise exactly one row is created from the generated payload, due in a week
    ensures r.Success? && data.industry !in old(db.insights) ==>
      && GenerateAIInsights(reply, parse).Success?
      && db.insights == old(db.insights)[data.industry := NewInsight(data.industry, GenerateAIInsights(reply, parse).value, now)]
    // when the transaction succeeds: exactly when the store does not abort and the row exists or can be generated
    ensures Authenticated(identity) && identity.value in old(db.users) ==>
      (r.Success? <==> !txFault && (data.industry in old(db.insights) || GenerateAIInsights(reply, parse).Success?))
  {
    if !Authenticated(identity) {
      return Failure(Unauthorized);
    }
    if identity.value !in db.users {
      return Failure(UserNotFound);
    }
    var user := db.users[identity.value];

    // 1) look up the insight row of the target industry; 2) create it if absent
    var stagedInsights := db.insights;
    if data.industry !in stagedInsights {
      var generated := GenerateAIInsights(reply, parse);
      if generated.Failure? {
        return Failure(ProfileUpdateFailed);
      }
      stagedInsights := stagedInsights[data.industry := NewInsight(data.industry, generated.value, now)];
    }
    // 3) update the profile
    var updated := WithProfile(user, data);
    if txFault {
      return Failure(ProfileUpdateFailed);
    }
    db.insights := stagedInsights;
    db.users := db.users[identity.value := updated];
    return Success(updated);
  }

  /**
   * `getUserOnboardingStatus`: `isOnboarded` holds exactly when the caller has
   * a profile with a non-empty industry; an unknown caller is not onboarded.
   */
  method GetUserOnboardingStatus(db: Store, identity: Option<string>) returns (r: Result<bool, Error>)
    ensures !Authenticated(identity) ==> r == Failure(Unauthorized)
    ensures Authenticated(identity) ==> r.Success?
    ensures r.Success? ==>
      (r.value <==> identity.value in db.users && db.users[identity.value].industry.Some?
                    && db.users[identity.value].industry.value != "")
  {
    if !Authenticated(identity) {
      return Failure(Unauthorized);
    }
    var isOnboarded := identity.value in db.users && HasIndustry(db.users[identity.value]);
    return Success(isOnboarded);
  }
}
