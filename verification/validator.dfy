/**
 The validator version of the update-status checks (class UpdateStatus, an
 activity validator). Its channel check asks the scheduler whether the
 activity is due before searching Twitter for an earlier identical Tweet.
 */
module UpdateStatusValidator {
  import opened Wrappers
  import opened Eligibility

  /** Whether the content should be checked at all: it references no URL.
      The start date is accepted and not used. */
  function CheckExecutable(env: Collaborators, content: Status, startDate: Instant): bool
  {
    |env.extractUrls(content.message)| == 0
  }

  lemma CheckExecutableIgnoresStartDate(env: Collaborators, content: Status, s1: Instant, s2: Instant)
    ensures CheckExecutable(env, content, s1) <==> !HasUrls(env, content.message)
    ensures CheckExecutable(env, content, s1) == CheckExecutable(env, content, s2)
  {
  }

  /** The channel check at instant `now`. `isDueNow` is the scheduler's due-time
      gate and `window` the configured maximum duplicate interval. A message with
      a URL passes; a message without one passes while not due; a due message
      is looked up in the account's Tweets since `now - window`. */
  function IsExecutableInChannel(env: Collaborators, isDueNow: Instant -> bool, content: Status,
                                 startDate: Instant, window: RelativeInterval, now: Instant): (r: Check)
    ensures HasUrls(env, content.message) ==> r == Pass
    ensures !HasUrls(env, content.message) && !isDueNow(startDate) ==> r == Pass
    ensures !HasUrls(env, content.message) && isDueNow(startDate) ==>
              JudgesSearch(env.search(Query(env.usernameOf(content.operation.activity.location),
                                            content.message, now - window.offset)),
                           content.message, r)
    ensures r.ApiError? || r.status == r.message.None?
  {
    if CheckExecutable(env, content, startDate) && isDueNow(startDate) then
      SearchVerdict(env.search(WindowQuery(env, content, window, now)), content.message)
    else
      Pass
  }

  /** A message with a URL is never searched for: any search service gives the same result. */
  lemma UrlSkipsSearch(env: Collaborators, other: Query -> Result<seq<Match>, Upstream>, isDueNow: Instant -> bool,
                       content: Status, startDate: Instant, window: RelativeInterval, now: Instant)
    requires HasUrls(env, content.message)
    ensures IsExecutableInChannel(env, isDueNow, content, startDate, window, now)
            == IsExecutableInChannel(env.(search := other), isDueNow, content, startDate, window, now)
            == Pass
  {
  }

  /** A URL-free message that is not due yet is not searched for either. */
  lemma NotDueSkipsSearch(env: Collaborators, other: Query -> Result<seq<Match>, Upstream>, isDueNow: Instant -> bool,
                          content: Status, startDate: Instant, window: RelativeInterval, now: Instant)
    requires !isDueNow(startDate)
    ensures IsExecutableInChannel(env, isDueNow, content, startDate, window, now)
            == IsExecutableInChannel(env.(search := other), isDueNow, content, startDate, window, now)
            == Pass
  {
  }

  /** The only search the check consults is the one for the account, the message
      and the window's lower bound: services agreeing on that query agree on the result. */
  lemma SearchesOnlyTheWindow(env: Collaborators, other: Query -> Result<seq<Match>, Upstream>, isDueNow: Instant -> bool,
                              content: Status, startDate: Instant, window: RelativeInterval, now: Instant)
    requires other(Query(env.usernameOf(content.operation.activity.location), content.message, now - window.offset))
             == env.search(Query(env.usernameOf(content.operation.activity.location), content.message, now - window.offset))
    ensures IsExecutableInChannel(env, isDueNow, content, startDate, window, now)
            == IsExecutableInChannel(env.(search := other), isDueNow, content, startDate, window, now)
  {
  }

  /** The campaign check. `clock` holds the two readings of "now" the check
      takes; `parent` is the verdict of the generic activity campaign check. */
  function IsExecutableInCampaign(content: Status, startDate: Instant, window: RelativeInterval,
                                  clock: ClockReadings, parent: Check): (r: Check)
    ensures !HasInterval(content.operation.activity.campaign) ==> r == parent
    ensures IntervalConflict(content.operation.activity.campaign, window, clock)
            ==> r == Verdict(false, Some(IntervalMessage(window.text)))
    ensures r != parent ==> IntervalConflict(content.operation.activity.campaign, window, clock)
  {
    CampaignVerdict(content.operation.activity.campaign, window, clock, parent)
  }
}
