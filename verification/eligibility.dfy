/**
 The vocabulary shared by both versions of the Twitter "update status"
 publish-eligibility checks: the entities a check reads, the verdict it
 returns, the two fixed fail messages, the exact-match scan over a search
 result and the campaign-interval comparison.
 */
module Eligibility {
  import opened Wrappers

  /** An instant on the application clock, counted in the clock's finest unit. */
  type Instant = int

  /** A relative offset as configured (`text`, e.g. "+7 days") together with
      the non-negative offset, in clock units, that DateTime::modify resolves it to. */
  datatype RelativeInterval = RelativeInterval(text: string, offset: nat)

  /** A campaign; `interval` is its repeat interval, `None` when it is null. */
  datatype Campaign = Campaign(interval: Option<RelativeInterval>)

  /** The activity owning an operation; `location` identifies its Twitter location. */
  datatype Activity = Activity(campaign: Campaign, location: int)

  datatype Operation = Operation(id: int, activity: Activity)

  /** The status entity: the Tweet text, the id Twitter assigned once published,
      and the operation it belongs to. */
  datatype Status = Status(message: string, idStr: Option<string>, operation: Operation)

  /** One entry of a search result's `statuses` array. */
  datatype Match = Match(text: string, idStr: string)

  /** The HTTP response carried by a failed Twitter request. */
  datatype Upstream = Upstream(reasonPhrase: string, statusCode: int)

  /** The components of a duplicate search before they are joined and URL-encoded:
      the account searched, the phrase searched for and the earliest instant. */
  datatype Query = Query(from: string, phrase: string, since: Instant)

  /** What a check produces: the verdict array `{status, message?}`, or the
      ExternalApiException it raises. */
  datatype Check =
    | Verdict(status: bool, message: Option<string>)
    | ApiError(reason: string, code: int)

  /** The bare passing verdict `array('status' => true)`. */
  const Pass: Check := Verdict(true, None)

  /** The services the checks call out to. */
  datatype Collaborators = Collaborators(
    /** ParserUtil::extractURLsFromText */
    extractUrls: string -> seq<string>,
    /** TwitterUser repository: location to the username of its Twitter account */
    usernameOf: int -> string,
    /** the Twitter `search/tweets.json` request */
    search: Query -> Result<seq<Match>, Upstream>)

  /** True when the message references at least one URL. */
  predicate HasUrls(env: Collaborators, message: string)
  {
    |env.extractUrls(message)| > 0
  }

  /** PHP truthiness of a string: only "" and "0" are false. */
  predicate Truthy(s: string)
  {
    s != "" && s != "0"
  }

  /** `if($campaign->getInterval())`: the campaign has a truthy interval. */
  predicate HasInterval(campaign: Campaign)
  {
    campaign.interval.Some? && Truthy(campaign.interval.value.text)
  }

  /** The duplicate search issued for a status at instant `now`. */
  function WindowQuery(env: Collaborators, content: Status, window: RelativeInterval, now: Instant): (q: Query)
    ensures q.from == env.usernameOf(content.operation.activity.location)
    ensures q.phrase == content.message
    ensures q.since <= now && now - q.since == window.offset
  {
    Query(env.usernameOf(content.operation.activity.location), content.message, now - window.offset)
  }

  /** The text of the duplicate search sent for a status: `from:` and the username
      of the status's location, a space, the message in double quotes, a space, and
      `since:` with the window's lower bound formatted as a date, and nothing else. */
  lemma WindowQueryText(env: Collaborators, content: Status, window: RelativeInterval, now: Instant,
                        formatDate: Instant -> string)
    ensures var user := env.usernameOf(content.operation.activity.location);
            var date := formatDate(now - window.offset);
            var t := QueryText(WindowQuery(env, content, window, now), formatDate);
            && |t| == 15 + |user| + |content.message| + |date|
            && t[..5 + |user|] == "from:" + user
            && t[5 + |user|] == ' '
            && ContainsAt(t, "\"" + content.message + "\"", 6 + |user|)
            && t[|t| - 7 - |date|] == ' '
            && ContainsAt(t, "since:" + date, |t| - 6 - |date|)
  {
  }

  /** The literal query text; `formatDate` renders an instant as the `Y-m-d` date
      the query names. The contract fixes every character of the text. */
  function QueryText(q: Query, formatDate: Instant -> string): (t: string)
    ensures |t| == 15 + |q.from| + |q.phrase| + |formatDate(q.since)|
    ensures t[..5 + |q.from|] == "from:" + q.from
    ensures t[5 + |q.from|] == ' '
    ensures ContainsAt(t, "\"" + q.phrase + "\"", 6 + |q.from|)
    ensures t[|t| - 7 - |formatDate(q.since)|] == ' '
    ensures ContainsAt(t, "since:" + formatDate(q.since), |t| - 6 - |formatDate(q.since)|)
  {
    var date := formatDate(q.since);
    var head := "from:" + q.from + " ";
    var phrase := "\"" + q.phrase + "\"";
    var tail := " since:" + date;
    var t := head + phrase + tail;
    assert t == "from:" + q.from + " " + "\"" + q.phrase + "\" " + "since:" + date;
    assert t[..|head|] == head;
    assert head[..5 + |q.from|] == "from:" + q.from;
    assert t[|head|..|head| + |phrase|] == phrase;
    assert t[|head| + |phrase|..] == tail;
    assert tail[1..] == "since:" + date;
    t
  }

  /** `t` occurs in `s` starting at index `k`. */
  predicate ContainsAt(s: string, t: string, k: int)
  {
    0 <= k && k + |t| <= |s| && s[k..k + |t|] == t
  }

  // ---------------------------------------------------------------------------
  // The duplicate-content fail message

  /** The link base of the fail message; the account name is fixed, it is not
      the channel's username. */
  const StatusLinkBase: string := "https://twitter.com/ordnas/status/"

  const DuplicateLead: string := "Same content has already been posted on Twitter: <a href=\"" + StatusLinkBase

  const DuplicateMiddle: string := "\">" + StatusLinkBase

  const DuplicateTail: string := "</a>"

  /** The fail message citing an earlier Tweet: an HTML link to it, twice naming its id. */
  function DuplicateMessage(idStr: string): string
  {
    DuplicateLead + idStr + DuplicateMiddle + idStr + DuplicateTail
  }

  /** Reads back the id cited by a fail message; the inverse of DuplicateMessage. */
  function CitedId(message: string): Option<string>
  {
    var fixed := |DuplicateLead| + |DuplicateMiddle| + |DuplicateTail|;
    if |message| < fixed || (|message| - fixed) % 2 != 0 then None
    else
      var n := (|message| - fixed) / 2;
      var id := message[|DuplicateLead|..|DuplicateLead| + n];
      if message == DuplicateMessage(id) then Some(id) else None
  }

  /** The fail message cites the matched id: the link to the fixed account's
      status with that id occurs both as the href and as the link text. */
  lemma DuplicateMessageCitesId(idStr: string)
    ensures ContainsAt(DuplicateMessage(idStr), StatusLinkBase + idStr, |DuplicateLead| - |StatusLinkBase|)
    ensures ContainsAt(DuplicateMessage(idStr), StatusLinkBase + idStr, |DuplicateLead| + |idStr| + 2)
  {
  }

  /** The id can be recovered from the fail message, so distinct matches give distinct messages. */
  lemma CitedIdRoundTrip(idStr: string)
    ensures CitedId(DuplicateMessage(idStr)) == Some(idStr)
  {
    var m := DuplicateMessage(idStr);
    var fixed := |DuplicateLead| + |DuplicateMiddle| + |DuplicateTail|;
    assert |m| == fixed + 2 * |idStr|;
    assert (|m| - fixed) / 2 == |idStr|;
    assert m[|DuplicateLead|..|DuplicateLead| + |idStr|] == idStr;
  }

  lemma DuplicateMessageInjective(a: string, b: string)
    ensures DuplicateMessage(a) == DuplicateMessage(b) ==> a == b
  {
    CitedIdRoundTrip(a);
    CitedIdRoundTrip(b);
  }

  // ---------------------------------------------------------------------------
  // The campaign-interval fail message

  /** `ltrim($s, '+')`: drops every leading '+' character. */
  function LTrimPlus(s: string): (r: string)
    ensures |r| <= |s| && r == s[|s| - |r|..]
    ensures forall i :: 0 <= i < |s| - |r| ==> s[i] == '+'
    ensures r == [] || r[0] != '+'
  {
    if |s| > 0 && s[0] == '+' then LTrimPlus(s[1..]) else s
  }

  /** Trimming again changes nothing, and a '+' put in front is trimmed away. */
  lemma LTrimPlusStable(t: string)
    ensures LTrimPlus(LTrimPlus(t)) == LTrimPlus(t)
    ensures LTrimPlus("+" + t) == LTrimPlus(t)
  {
    var r := LTrimPlus(t);
    assert r == [] || r[0] != '+';
    assert LTrimPlus(r) == r;
    var s := "+" + t;
    assert |s| > 0 && s[0] == '+';
    assert s[1..] == t;
  }

  const IntervalLead: string := "The campaign interval must be more than "

  const IntervalTail: string :=
    " to avoid a <a href=\"https://twittercommunity.com/t/duplicate-tweets/13264\">duplicate Tweet error</a>."

  /** The fail message naming the duplicate-avoidance window, leading '+' removed. */
  function IntervalMessage(windowText: string): string
  {
    IntervalLead + LTrimPlus(windowText) + IntervalTail
  }

  /** The message names the window without its sign: "+7 days" and "7 days" read alike. */
  lemma IntervalMessageNamesWindow(windowText: string)
    ensures ContainsAt(IntervalMessage(windowText), LTrimPlus(windowText), |IntervalLead|)
    ensures IntervalMessage("+" + windowText) == IntervalMessage(windowText)
  {
  }

  // ---------------------------------------------------------------------------
  // Scanning a search result

  /** The index of the first match, in result order, whose text equals the message. */
  function FirstExactMatch(matches: seq<Match>, message: string): (r: Option<nat>)
    ensures r.None? <==> forall i :: 0 <= i < |matches| ==> matches[i].text != message
    ensures r.Some? ==> r.value < |matches| && matches[r.value].text == message
    ensures r.Some? ==> forall j :: 0 <= j < r.value ==> matches[j].text != message
  {
    if |matches| == 0 then None
    else if matches[0].text == message then Some(0)
    else match FirstExactMatch(matches[1..], message)
      case Some(i) => Some(i + 1)
      case None => None
  }

  /** What a channel check must return once its search has come back `found`:
      the search failure re-raised with its reason and status code; otherwise a
      fail citing the first exact match when there is one, and a bare pass when not. */
  ghost predicate JudgesSearch(found: Result<seq<Match>, Upstream>, message: string, r: Check)
  {
    match found
    case Failure(e) => r == ApiError(e.reasonPhrase, e.statusCode)
    case Success(ms) =>
      && r.Verdict?
      && (!r.status <==> exists i :: 0 <= i < |ms| && ms[i].text == message)
      && (r.status ==> r.message.None?)
      && (!r.status ==>
            exists i :: 0 <= i < |ms| && ms[i].text == message
                        && (forall j :: 0 <= j < i ==> ms[j].text != message)
                        && r.message == Some(DuplicateMessage(ms[i].idStr)))
  }

  /** The part of a channel check after the search request: re-raise a failed
      request, treat an empty result as a pass, else scan for an exact match. */
  function SearchVerdict(found: Result<seq<Match>, Upstream>, message: string): (r: Check)
    ensures JudgesSearch(found, message, r)
  {
    match found
    case Failure(e) => ApiError(e.reasonPhrase, e.statusCode)
    case Success(ms) =>
      if |ms| == 0 then Pass
      else match FirstExactMatch(ms, message)
        case Some(i) => Verdict(false, Some(DuplicateMessage(ms[i].idStr)))
        case None => Pass
  }

  /** A search result listing no Tweet with the exact text, in particular an empty one, passes. */
  lemma NoExactMatchPasses(ms: seq<Match>, message: string)
    requires forall i :: 0 <= i < |ms| ==> ms[i].text != message
    ensures SearchVerdict(Success(ms), message) == Pass
  {
  }

  /** A search failure is never turned into a verdict. */
  lemma SearchFailureIsRaised(found: Result<seq<Match>, Upstream>, message: string)
    ensures SearchVerdict(found, message).ApiError? <==> found.Failure?
  {
  }

  /** Matches after the first exact one do not influence the verdict. */
  lemma {:induction false} LaterMatchesIgnored(ms: seq<Match>, more: seq<Match>, message: string)
    requires exists i :: 0 <= i < |ms| && ms[i].text == message
    ensures SearchVerdict(Success(ms + more), message) == SearchVerdict(Success(ms), message)
  {
    FirstExactMatchPrefix(ms, more, message);
  }

  lemma {:induction false} FirstExactMatchPrefix(ms: seq<Match>, more: seq<Match>, message: string)
    requires FirstExactMatch(ms, message).Some?
    ensures FirstExactMatch(ms + more, message) == FirstExactMatch(ms, message)
  {
    assert (ms + more)[0] == ms[0];
    if ms[0].text != message {
      assert (ms + more)[1..] == ms[1..] + more;
      FirstExactMatchPrefix(ms[1..], more, message);
    }
  }

  // ---------------------------------------------------------------------------
  // The campaign-interval comparison

  /** The two clock readings of the campaign check, in the order the source takes
      them: the one offset by the campaign interval, then the one offset by the window. */
  datatype ClockReadings = ClockReadings(campaignNow: Instant, windowNow: Instant)

  /** The campaign has an interval and "now + window" is later than "now + interval". */
  predicate IntervalConflict(campaign: Campaign, window: RelativeInterval, clock: ClockReadings)
  {
    HasInterval(campaign)
    && clock.windowNow + window.offset > clock.campaignNow + campaign.interval.value.offset
  }

  /** The campaign check: fail naming the window on a conflict, otherwise the
      verdict of the generic (parent) campaign check. */
  function CampaignVerdict(campaign: Campaign, window: RelativeInterval, clock: ClockReadings, parent: Check): (r: Check)
    ensures !HasInterval(campaign) ==> r == parent
    ensures r != parent ==> r == Verdict(false, Some(IntervalMessage(window.text)))
    ensures IntervalConflict(campaign, window, clock) ==> r == Verdict(false, Some(IntervalMessage(window.text)))
    ensures r != parent ==> IntervalConflict(campaign, window, clock)
    ensures HasInterval(campaign) && clock.campaignNow == clock.windowNow ==>
              (window.offset > campaign.interval.value.offset ==> r == Verdict(false, Some(IntervalMessage(window.text))))
              && (window.offset <= campaign.interval.value.offset ==> r == parent)
  {
    if IntervalConflict(campaign, window, clock) then Verdict(false, Some(IntervalMessage(window.text)))
    else parent
  }

  /** With both readings at one instant, the check fails exactly when the window
      is longer than the campaign interval, whatever the instant. */
  lemma SameInstantConflictIffLonger(campaign: Campaign, window: RelativeInterval, now: Instant, parent: Check)
    requires HasInterval(campaign)
    ensures CampaignVerdict(campaign, window, ClockReadings(now, now), parent)
              == if window.offset > campaign.interval.value.offset
                 then Verdict(false, Some(IntervalMessage(window.text)))
                 else parent
  {
  }

  /** Equal window and interval pass only when the two readings do not advance:
      a later second reading makes the check fail. */
  lemma EqualIntervalsFailAcrossTick(campaign: Campaign, window: RelativeInterval, clock: ClockReadings, parent: Check)
    requires HasInterval(campaign) && campaign.interval.value.offset == window.offset
    ensures clock.windowNow > clock.campaignNow ==>
              CampaignVerdict(campaign, window, clock, parent) == Verdict(false, Some(IntervalMessage(window.text)))
    ensures clock.windowNow <= clock.campaignNow ==> CampaignVerdict(campaign, window, clock, parent) == parent
  {
  }
}
