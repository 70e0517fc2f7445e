/**
 The older handler version of the update-status checks (class
 UpdateStatusHandler, an activity handler). Its channel check has no due-time
 gate; the class also turns form data into the status entity, loads the
 status of an operation and decides whether to publish immediately.
 */
module UpdateStatusHandler {
  import opened Wrappers
  import opened Eligibility

  /** What a form submits for a status, or the entity itself. A form array is
      represented by its 'message' field. */
  datatype ContentData = FormData(message: string) | StatusEntity(status: Status)

  /** `getContent`: no operation gives null (`None`); otherwise the status service's
      lookup of that operation, whose "not found" the caller receives unchanged. */
  function GetContent(operation: Option<Operation>, lookup: Operation -> Option<Status>): (r: Option<Option<Status>>)
    ensures r.None? <==> operation.None?
    ensures operation.Some? ==> r == Some(lookup(operation.value))
  {
    match operation
    case None => None
    case Some(op) => Some(lookup(op))
  }

  /** `getContent` consults the status service only for the operation it is given. */
  lemma GetContentConsultsOnlyGivenOperation(operation: Option<Operation>, lookup: Operation -> Option<Status>,
                                             other: Operation -> Option<Status>)
    requires operation.Some? ==> other(operation.value) == lookup(operation.value)
    ensures GetContent(operation, lookup) == GetContent(operation, other)
  {
  }

  /** `processContent`: form data for an operation whose status exists edits that
      status's message; form data with no status yet, and an entity, come back as given.
      `lookup` is the status service; `None` stands for the exception it raises. */
  function ProcessContent(operation: Operation, data: ContentData, lookup: Operation -> Option<Status>): (r: ContentData)
    ensures data.StatusEntity? ==> r == data
    ensures data.FormData? && lookup(operation).None? ==> r == data
    ensures data.FormData? && lookup(operation).Some? ==>
              r.StatusEntity? && r.status.(message := lookup(operation).value.message) == lookup(operation).value
    ensures data.FormData? ==> MessageOf(r) == data.message
  {
    match data
    case StatusEntity(_) => data
    case FormData(message) =>
      match lookup(operation)
      case Some(status) => StatusEntity(status.(message := message))
      case None => data
  }

  /** The Tweet text a content value carries. */
  function MessageOf(data: ContentData): string
  {
    match data
    case FormData(m) => m
    case StatusEntity(s) => s.message
  }

  /** Processing twice is processing once. */
  lemma ProcessContentIdempotent(operation: Operation, data: ContentData, lookup: Operation -> Option<Status>)
    ensures ProcessContent(operation, ProcessContent(operation, data, lookup), lookup)
            == ProcessContent(operation, data, lookup)
  {
  }

  /** An entity is processed without asking the status service. */
  lemma EntitySkipsLookup(operation: Operation, status: Status, lookup: Operation -> Option<Status>,
                          other: Operation -> Option<Status>)
    ensures ProcessContent(operation, StatusEntity(status), lookup)
            == ProcessContent(operation, StatusEntity(status), other)
  {
  }

  /** The outcome of `publishNow`: its boolean result and the operation whose
      job it ran, if any. */
  datatype PublishOutcome = PublishOutcome(published: bool, executedJob: Option<int>)

  /** `publishNow`: the form's due hook carries `executionChoice` (`None` when the
      field is absent); the job for the operation runs exactly when it is "now". */
  function PublishNow(operation: Operation, executionChoice: Option<string>): (r: PublishOutcome)
    ensures r.published <==> executionChoice == Some("now")
    ensures r.executedJob.Some? <==> r.published
    ensures r.executedJob.Some? ==> r.executedJob.value == operation.id
  {
    if executionChoice.Some? && executionChoice.value == "now" then PublishOutcome(true, Some(operation.id))
    else PublishOutcome(false, None)
  }

  /** Every choice other than "now", an absent field included, declines alike and
      runs no job; "now" runs the job of the given operation and of no other. */
  lemma PublishNowOnlyOnNow(operation: Operation, other: Operation, c1: Option<string>, c2: Option<string>)
    ensures c1 != Some("now") && c2 != Some("now") ==>
              PublishNow(operation, c1) == PublishNow(other, c2) == PublishOutcome(false, None)
    ensures PublishNow(operation, Some("now")) == PublishNow(other, Some("now")) <==> operation.id == other.id
  {
  }

  /** Whether the content should be checked at all: it references no URL. */
  function CheckExecutable(env: Collaborators, content: Status): bool
  {
    |env.extractUrls(content.message)| == 0
  }

  lemma CheckExecutableIffNoUrls(env: Collaborators, content: Status)
    ensures CheckExecutable(env, content) <==> !HasUrls(env, content.message)
  {
  }

  /** The channel check at instant `now`, `window` being the configured maximum
      duplicate interval. A message with a URL passes; any other message is
      looked up in the account's Tweets since `now - window`. */
  function IsExecutableInChannel(env: Collaborators, content: Status, window: RelativeInterval, now: Instant): (r: Check)
    ensures HasUrls(env, content.message) ==> r == Pass
    ensures !HasUrls(env, content.message) ==>
              JudgesSearch(env.search(Query(env.usernameOf(content.operation.activity.location),
                                            content.message, now - window.offset)),
                           content.message, r)
    ensures r.ApiError? || r.status == r.message.None?
  {
    if CheckExecutable(env, content) then
      SearchVerdict(env.search(WindowQuery(env, content, window, now)), content.message)
    else
      Pass
  }

  /** A message with a URL is never searched for. */
  lemma UrlSkipsSearch(env: Collaborators, other: Query -> Result<seq<Match>, Upstream>,
                       content: Status, window: RelativeInterval, now: Instant)
    requires HasUrls(env, content.message)
    ensures IsExecutableInChannel(env, content, window, now)
            == IsExecutableInChannel(env.(search := other), content, window, now)
            == Pass
  {
  }

  /** The only search the check consults is the one for the account, the message
      and the window's lower bound. */
  lemma SearchesOnlyTheWindow(env: Collaborators, other: Query -> Result<seq<Match>, Upstream>,
                              content: Status, window: RelativeInterval, now: Instant)
    requires other(Query(env.usernameOf(content.operation.activity.location), content.message, now - window.offset))
             == env.search(Query(env.usernameOf(content.operation.activity.location), content.message, now - window.offset))
    ensures IsExecutableInChannel(env, content, window, now)
            == IsExecutableInChannel(env.(search := other), content, window, now)
  {
  }

  /** The campaign check, with the same two clock readings as the validator
      version; `parent` is the verdict of the generic activity-handler campaign check. */
  function IsExecutableInCampaign(content: Status, window: RelativeInterval, clock: ClockReadings, parent: Check): (r: Check)
    ensures !HasInterval(content.operation.activity.campaign) ==> r == parent
    ensures IntervalConflict(content.operation.activity.campaign, window, clock)
            ==> r == Verdict(false, Some(IntervalMessage(window.text)))
    ensures r != parent ==> IntervalConflict(content.operation.activity.campaign, window, clock)
  {
    CampaignVerdict(content.operation.activity.campaign, window, clock, parent)
  }
}
