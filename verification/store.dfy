/**
 * The relational store the handlers share: users keyed by the identity
 * provider's user id, insight rows keyed by industry, and the append-only
 * assessment table.
 */
module Db {
  import opened Wrappers
  import opened Records

  /** `if (!userId)`: a missing or empty identity is not signed in. */
  predicate Authenticated(identity: Option<string>) {
    identity.Some? && identity.value != ""
  }

  /** Every user is stored under its own identity-provider id. */
  predicate KeyedUsers(users: map<string, User>) {
    forall k :: k in users ==> users[k].clerkUserId == k
  }

  /** Every insight row is stored under its own industry: one row per industry. */
  predicate KeyedInsights(insights: map<string, IndustryInsight>) {
    forall k :: k in insights ==> insights[k].industry == k
  }

  class Store {
    var users: map<string, User>
    var insights: map<string, IndustryInsight>
    var assessments: seq<Assessment>

    /** The unique keys agree with the rows they index. */
    ghost predicate Valid()
      reads this
    {
      KeyedUsers(users) && KeyedInsights(insights)
    }

    /** A store holding the given users (created at sign-up) and nothing else. */
    constructor (initialUsers: map<string, User>)
      requires KeyedUsers(initialUsers)
      ensures Valid()
      ensures users == initialUsers && insights == map[] && assessments == []
    {
      users := initialUsers;
      insights := map[];
      assessments := [];
    }
  }
}
