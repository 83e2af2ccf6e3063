/**
 * lib/inngest/function.js: the weekly job that regenerates the insight row of
 * every stored industry, one industry at a time, skipping those that fail.
 */
module InsightRefresh {
  import opened Wrappers
  import opened Records
  import opened Replies
  import opened Db

  /** The row after a successful refresh: new payload, stamped now, due in a week. */
  function Refreshed(row: IndustryInsight, payload: Insights, now: int): IndustryInsight {
    row.(insights := payload, lastUpdated := now, nextUpdate := now + WEEK_MS)
  }

  /**
   * The payload written for `industry`: present only when the generation
   * call, the parse and the update all succeed.
   */
  function RefreshPayload(
    industry: string, replies: string -> Completion,
    parse: string -> Option<Insights>, writeFails: string -> bool): Option<Insights>
  {
    if writeFails(industry) then None else DecodeReply(replies(industry), parse)
  }

  /** The try block succeeds for `industry` against a store whose industries are `keys`. */
  predicate Refreshes(
    keys: set<string>, industry: string, replies: string -> Completion,
    parse: string -> Option<Insights>, writeFails: string -> bool)
  {
    industry in keys && RefreshPayload(industry, replies, parse, writeFails).Some?
  }

  /**
   * The industries whose try block fails, in list order (each is written to
   * the error log and the loop goes on): exactly the listed ones that fail.
   */
  function Skipped(
    listing: seq<string>, keys: set<string>, replies: string -> Completion,
    parse: string -> Option<Insights>, writeFails: string -> bool): (r: seq<string>)
    ensures |r| <= |listing|
    ensures forall k :: k in r <==> k in listing && !Refreshes(keys, k, replies, parse, writeFails)
    decreases |listing|
  {
    if listing == [] then []
    else
      var n := |listing| - 1;
      var front := Skipped(listing[..n], keys, replies, parse, writeFails);
      assert listing == listing[..n] + [listing[n]];
      front + (if Refreshes(keys, listing[n], replies, parse, writeFails) then [] else [listing[n]])
  }

  /**
   * One pass of the loop body: generate, clean, parse, then update the row in
   * place.  The update targets an existing row only (it throws on a missing
   * one), and runs only after the parse succeeded.
   */
  method RefreshIndustry(
    db: Store, industry: string, replies: string -> Completion,
    parse: string -> Option<Insights>, writeFails: string -> bool, now: int)
    returns (ok: bool)
    requires db.Valid()
    modifies db
    ensures db.Valid()
    ensures db.users == old(db.users) && db.assessments == old(db.assessments)
    ensures ok == (industry in old(db.insights) && RefreshPayload(industry, replies, parse, writeFails).Some?)
    ensures ok ==> db.insights == old(db.insights)[industry :=
      Refreshed(old(db.insights)[industry], RefreshPayload(industry, replies, parse, writeFails).value, now)]
    ensures !ok ==> db.insights == old(db.insights)
  {
    var insights := DecodeReply(replies(industry), parse);
    if insights.None? || industry !in db.insights || writeFails(industry) {
      // the generation call, the parse or the update threw
      return false;
    }
    assert RefreshPayload(industry, replies, parse, writeFails) == insights;
    var row := Refreshed(db.insights[industry], insights.value, now);
    db.insights := db.insights[industry := row];
    return true;
  }

  /**
   * `generateIndustryInsights`.  `listing` is what the "Fetch industries"
   * step returned; `replies(i)` is the outcome of the generation call for
   * industry `i`, and `writeFails(i)` says that its update throws.  Returns the
   * industries that were skipped, in order.
   */
  method GenerateIndustryInsights(
    db: Store, listing: seq<string>, replies: string -> Completion,
    parse: string -> Option<Insights>, writeFails: string -> bool, now: int)
    returns (skipped: seq<string>)
    requires db.Valid()
    modifies db
    ensures db.Valid()
    ensures db.users == old(db.users) && db.assessments == old(db.assessments)
    // no row is created or removed
    ensures db.insights.Keys == old(db.insights).Keys
    // a listed industry that succeeds is refreshed; every other row keeps its previous values
    ensures forall k :: k in old(db.insights) ==>
      db.insights[k] ==
        if k in listing && Refreshes(old(db.insights).Keys, k, replies, parse, writeFails)
        then Refreshed(old(db.insights)[k], RefreshPayload(k, replies, parse, writeFails).value, now)
        else old(db.insights)[k]
    // every listed industry is attempted: each failure is skipped in list order and the loop goes on
    ensures skipped == Skipped(listing, old(db.insights).Keys, replies, parse, writeFails)
  {
    ghost var keys := db.insights.Keys;
    skipped := [];
    for i := 0 to |listing|
      invariant db.Valid()
      invariant db.users == old(db.users) && db.assessments == old(db.assessments)
      invariant db.insights.Keys == keys
      invariant forall k :: k in old(db.insights) ==>
        db.insights[k] ==
          if k in listing[..i] && Refreshes(keys, k, replies, parse, writeFails)
          then Refreshed(old(db.insights)[k], RefreshPayload(k, replies, parse, writeFails).value, now)
          else old(db.insights)[k]
      invariant skipped == Skipped(listing[..i], keys, replies, parse, writeFails)
    {
      var industry := listing[i];
      assert listing[..i + 1] == listing[..i] + [industry];
      assert listing[..i + 1][..i] == listing[..i];
      var ok := RefreshIndustry(db, industry, replies, parse, writeFails, now);
      if !ok {
        skipped := skipped + [industry];
      }
    }
    assert listing[..|listing|] == listing;
  }
}
