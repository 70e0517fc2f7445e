# Twitter update-status publish eligibility

This project models the checks the CampaignChain Twitter activity module runs
before it publishes a scheduled Tweet ("status update"). The checks decide whether
the Tweet may be published:

- **URL short-circuit.** A message that references a URL always passes. Each send
  gets its own shortened URL, so the text on the wire is never a repeat.
- **Duplicate search.** A URL-free message is searched for among the account's
  Tweets since "now minus the maximum duplicate interval". The first result whose
  text equals the message exactly gives a fail verdict. That verdict links to the
  earlier Tweet.
- **Search failure.** A failed Twitter request is re-raised as an external-API
  error carrying the upstream reason phrase and status code. It is never turned
  into a verdict.
- **Campaign interval.** The campaign check fails when "now + maximum duplicate
  interval" is later than "now + campaign interval". Otherwise it hands over to
  the generic campaign check.

The source has two versions of these checks:

- **Validator version** (`UpdateStatusValidator`). Its channel check also asks
  the scheduler whether the activity is due. It passes without searching while
  the activity is not due.
- **Older handler version** (`UpdateStatusHandler`). It has no due-time gate. The
  same class also turns form data into the status entity (`processContent`),
  loads an operation's status (`getContent`) and decides whether to publish
  immediately (`publishNow`).

What both versions share lives in `Eligibility`: the entities, the verdict type,
the two fail messages, the exact-match scan and the interval comparison.
`VersionAgreement` proves how the two versions relate.

Every collaborator is a parameter:

- URL extraction, the location-to-Twitter-username lookup and the Twitter search
  request are function fields of `Collaborators`.
- The scheduler's `isDueNow` is a function parameter of the validator's channel
  check.
- The clock readings are plain arguments.
- The generic (parent) campaign check is an opaque verdict argument.

"No search happens" is stated this way: replacing the search function does not
change the result. "This is the query" is stated this way: two search functions
that agree on that one query give the same result.

Points where the model is deliberately exact:

- The fail link names the fixed account `ordnas`
  (`Eligibility.StatusLinkBase`). It does not name the channel's username. The
  model never relates the two.
- The campaign check reads the clock twice. The reading offset by the campaign
  interval comes first, then the reading offset by the duplicate window. The
  model keeps both readings (`ClockReadings`). With a single instant, the check
  fails exactly when the window is longer than the campaign interval. When the
  two lengths are equal, it fails only if the second reading is later than the
  first (`EqualIntervalsFailAcrossTick`).
- The fail message says the campaign interval "must be more than" the window.
  At equal lengths with one instant the check still passes, so the message is
  stricter than the comparison.
- `if($campaign->getInterval())` is PHP truthiness. An interval text of `""` or
  `"0"` counts as no interval (`Eligibility.Truthy`).
- `ltrim(…, '+')` removes every leading `+`, not just one (`Eligibility.LTrimPlus`).
- The text comparison is PHP `==`. It is modelled as string equality. PHP's loose
  comparison treats two numeric-looking strings as numbers (`"1e3" == "1000"`), so
  for such Tweets the source may find a match the model does not.
- An empty search result takes the source's separate branch (`count($matches)`
  is 0). Like a result with no exact match, it passes.

## Model

| member | source | states |
|---|---|---|
| `Eligibility.WindowQueryText` | Validator/UpdateStatus.php:90-101 | the query text sent for a status is exactly `from:` and the username of its location's Twitter account, a space, the double-quoted message, a space, and `since:` with the date of now minus the window |
| `Eligibility.QueryText` | Validator/UpdateStatus.php:95-100 | the query text is exactly `from:<username>`, a space, the double-quoted phrase, a space, and `since:` with the lower bound formatted as a date: its length and every separator are fixed |
| `Eligibility.DuplicateMessageCitesId` | Validator/UpdateStatus.php:120-127 | the duplicate fail message contains the link `https://twitter.com/ordnas/status/<id_str>` as both the href and the link text |
| `Eligibility.CitedIdRoundTrip` | Validator/UpdateStatus.php:122-126 | the cited id can be read back from the fail message |
| `Eligibility.DuplicateMessageInjective` | Validator/UpdateStatus.php:122-126 | different matched ids give different fail messages |
| `Eligibility.LTrimPlus` | Validator/UpdateStatus.php:165 | the result is the input with its whole run of leading `+` removed: a suffix, only `+` dropped, and no leading `+` left |
| `Eligibility.LTrimPlusStable` | Validator/UpdateStatus.php:165 | trimming is idempotent, and one more leading `+` makes no difference |
| `Eligibility.IntervalMessageNamesWindow` | Validator/UpdateStatus.php:163-167 | the interval fail message names the window with its leading `+` stripped, so "+7 days" and "7 days" give the same message |
| `Eligibility.FirstExactMatch` | Validator/UpdateStatus.php:116-129 | finds the first result, in result order, whose text equals the message; finds none exactly when no result's text equals it |
| `Eligibility.SearchVerdict` | Validator/UpdateStatus.php:102-141 | a failed search becomes an API error with the upstream reason and code; otherwise fail exactly when some result equals the message, citing the first such id_str; a pass has no message |
| `Eligibility.NoExactMatchPasses` | Validator/UpdateStatus.php:116-141 | a result with no exact match, including an empty one, gives the bare pass `{status: true}` |
| `Eligibility.SearchFailureIsRaised` | Validator/UpdateStatus.php:104-110 | the check yields an API error exactly when the search failed |
| `Eligibility.LaterMatchesIgnored` | Validator/UpdateStatus.php:117-128 | once a result equals the message, results appended after it do not change the verdict |
| `Eligibility.FirstExactMatchPrefix` | Validator/UpdateStatus.php:117-118 | the first exact match of a list is still the first after more results are appended |
| `Eligibility.CampaignVerdict` | Validator/UpdateStatus.php:154-172 | no truthy interval hands over to the parent verdict; the interval fail exactly when there is a truthy interval and the second reading plus the window is later than the first reading plus the campaign interval, the parent verdict otherwise; with one instant, fail exactly when the window is longer |
| `Eligibility.SameInstantConflictIffLonger` | Validator/UpdateStatus.php:155-160 | with both readings at one instant, the check fails exactly when the window is longer than the campaign interval, whatever the instant |
| `Eligibility.EqualIntervalsFailAcrossTick` | Validator/UpdateStatus.php:155-160 | with equal lengths, a second reading later than the first fails and any other pair hands over to the parent |
| `UpdateStatusValidator.CheckExecutableIgnoresStartDate` | Validator/UpdateStatus.php:56-59 | the content is checked exactly when its message has no URL, whatever the start date |
| `UpdateStatusValidator.IsExecutableInChannel` | Validator/UpdateStatus.php:73-142 | a URL passes; URL-free and not due passes; URL-free and due is judged on the search for username, message and now minus window; a pass has no message |
| `UpdateStatusValidator.UrlSkipsSearch` | Validator/UpdateStatus.php:78-79 | with a URL the result is `{status: true}` for any search service, so no search is used |
| `UpdateStatusValidator.NotDueSkipsSearch` | Validator/UpdateStatus.php:79-141 | not due gives `{status: true}` for any search service |
| `UpdateStatusValidator.SearchesOnlyTheWindow` | Validator/UpdateStatus.php:90-101 | the result depends on the search service only through the one query for username, message and now minus window |
| `UpdateStatusValidator.IsExecutableInCampaign` | Validator/UpdateStatus.php:149-173 | no interval returns the parent verdict; a conflict returns the interval fail; no other result differs from the parent's |
| `UpdateStatusHandler.GetContent` | Controller/UpdateStatusHandler.php:65-72 | null exactly when no operation is given; otherwise the status service's answer for that operation |
| `UpdateStatusHandler.GetContentConsultsOnlyGivenOperation` | Controller/UpdateStatusHandler.php:65-72 | two status services that agree on the given operation give the same content, and with no operation the service is not consulted at all |
| `UpdateStatusHandler.ProcessContent` | Controller/UpdateStatusHandler.php:74-90 | an entity comes back unchanged; form data for an existing status gives that status with only its message replaced; form data with no status yet comes back as given; form data's message always survives |
| `UpdateStatusHandler.ProcessContentIdempotent` | Controller/UpdateStatusHandler.php:74-90 | processing the processed content again changes nothing |
| `UpdateStatusHandler.EntitySkipsLookup` | Controller/UpdateStatusHandler.php:77-83 | an entity is processed without consulting the status service |
| `UpdateStatusHandler.PublishNow` | Controller/UpdateStatusHandler.php:164-178 | returns true, and runs the operation's job, exactly when the execution choice is present and is "now"; otherwise returns false and runs nothing |
| `UpdateStatusHandler.PublishNowOnlyOnNow` | Controller/UpdateStatusHandler.php:164-178 | every choice other than "now" declines alike and runs no job; "now" runs the job of exactly the given operation |
| `UpdateStatusHandler.CheckExecutableIffNoUrls` | Controller/UpdateStatusHandler.php:186-189 | the content is checked exactly when its message has no URL |
| `UpdateStatusHandler.IsExecutableInChannel` | Controller/UpdateStatusHandler.php:202-269 | a URL passes; any URL-free message is judged on the search for username, message and now minus window (no due gate); a pass has no message |
| `UpdateStatusHandler.UrlSkipsSearch` | Controller/UpdateStatusHandler.php:207 | with a URL the result is `{status: true}` for any search service |
| `UpdateStatusHandler.SearchesOnlyTheWindow` | Controller/UpdateStatusHandler.php:218-229 | the result depends on the search service only through the one query for username, message and now minus window |
| `UpdateStatusHandler.IsExecutableInCampaign` | Controller/UpdateStatusHandler.php:271-295 | no interval returns the parent verdict; a conflict returns the interval fail; no other result differs from the parent's |
| `VersionAgreement.ChannelChecksAgreeWhenDue` | Validator/UpdateStatus.php:78-79 | once due, the validator's channel check equals the handler's; before that it is `{status: true}` |
| `VersionAgreement.CheckExecutableAgrees` | Validator/UpdateStatus.php:56-59 | both versions decide whether to check the same way |
| `VersionAgreement.CampaignChecksAgree` | Validator/UpdateStatus.php:149-173 | each version hands over to its own parent check; the two verdicts are equal exactly when the parents' verdicts are or an interval conflict overrides both, and then both are the interval fail |

## Left out

- `ParserUtil::extractURLsFromText`, the TwitterUser repository lookup and `SchedulerUtil::isDueNow` are not part of this model. They are uninterpreted parameters. Nothing is assumed about `isDueNow`; in particular "due when now is at or after the start date" is not assumed.
- The location lookup is taken to return a username. A location with no Twitter user, which makes the source fail on a null object, is not modelled.
- The Twitter REST calls are not modelled: connecting by activity, `search/tweets.json` and `statuses/oembed.json`. The search is a function from the query to a result or an upstream failure. Every failure is taken to carry an HTTP response with a reason phrase and a status code.
- The search response is taken to have a `statuses` array. A response without one is not modelled.
- `DateTime::modify` is not modelled: it parses relative strings such as "+7 days" or "+1 month". Each interval is a text plus the non-negative offset it resolves to. An offset that depends on the calendar, such as months, is not modelled. `'-' . interval` is taken to subtract the same offset. That holds only for a single-term interval such as "+7 days": for a multi-term one such as "1 week 2 days", PHP applies the `-` to the first term only, moving back 5 days where `modify('1 week 2 days')` moves forward 9. Multi-term windows are not modelled.
- Time zones, the `Y-m-d` date formatting and `urlencode` of the query are not modelled. `QueryText` takes the date formatter as an uninterpreted function argument. A message containing `"` breaks the quoted phrase; that is not modelled.
- PHP loose `==` on numeric-looking strings is not modelled. It is replaced by string equality.
- The form array is represented by its `message` field only. A form without that key is not modelled.
- `parent::isExecutableInCampaign` is not part of this model. Its verdict is an opaque argument. The validator passes `null` to it as the start date.
- `readAction` in both classes is not modelled: HTTP fetch, flash messages and Twig rendering. The flash message and `getUrl` call inside `publishNow` are not modelled. The job's own execution is not modelled either; `PublishOutcome` records which operation's job was run.
- ProcessContent: returns a new status record. The source instead calls `setMessage` on the entity the status service manages, so the edit is visible to every holder of that entity and to a later flush even if the result is discarded. Shared mutable entities are not modelled.
- PublishNow: takes the form's due hook as present. The source's `$form->get('campaignchain_hook_campaignchain_due')` throws when the form has no such child; `None` here only means that `execution_choice` is absent.
- `postPersistNewEvent` and `postPersistEditEvent` only forward to `publishNow` and drop its result. They have no decision of their own.
- `UpdateStatusController` and the REST `ActivityController` are not modelled. They are form handling, persistence and routing with no decision logic.
- The orchestration that runs the checks in order and stops at the first fail is not modelled. It lives in the core bundle, not in these files. The model covers each check on its own.
