/**
 How the two versions relate: the validator's channel check is the handler's
 behind a due-time gate, and the two campaign checks coincide.
 */
module VersionAgreement {
  import opened Wrappers
  import opened Eligibility
  import V = UpdateStatusValidator
  import H = UpdateStatusHandler

  /** Once the activity is due, the validator checks the channel as the handler does;
      before that it passes where the handler may search and fail. */
  lemma ChannelChecksAgreeWhenDue(env: Collaborators, isDueNow: Instant -> bool, content: Status,
                                  startDate: Instant, window: RelativeInterval, now: Instant)
    ensures isDueNow(startDate) ==>
              V.IsExecutableInChannel(env, isDueNow, content, startDate, window, now)
              == H.IsExecutableInChannel(env, content, window, now)
    ensures !isDueNow(startDate) ==> V.IsExecutableInChannel(env, isDueNow, content, startDate, window, now) == Pass
  {
  }

  /** Both versions decide on URLs alike. */
  lemma CheckExecutableAgrees(env: Collaborators, content: Status, startDate: Instant)
    ensures V.CheckExecutable(env, content, startDate) == H.CheckExecutable(env, content)
  {
  }

  /** The two campaign checks hand over to different parent checks (the validator
      passes a null start date to its parent). Their verdicts coincide exactly
      when the parents' verdicts do or when an interval conflict overrides both,
      in which case both give the interval fail. */
  lemma CampaignChecksAgree(content: Status, startDate: Instant, window: RelativeInterval,
                            clock: ClockReadings, validatorParent: Check, handlerParent: Check)
    ensures V.IsExecutableInCampaign(content, startDate, window, clock, validatorParent)
            == H.IsExecutableInCampaign(content, window, clock, handlerParent)
            <==> validatorParent == handlerParent || IntervalConflict(content.operation.activity.campaign, window, clock)
    ensures IntervalConflict(content.operation.activity.campaign, window, clock) ==>
              V.IsExecutableInCampaign(content, startDate, window, clock, validatorParent)
              == H.IsExecutableInCampaign(content, window, clock, handlerParent)
              == Verdict(false, Some(IntervalMessage(window.text)))
  {
  }
}
