/** When a request is drafted again, scheduled and claimed, by its fields and its run (convex/accessRequests.ts). */
module RequestRuns {
  import opened Prelude
  import opened SlackMarkup
  import opened AccessRequests

  /** The card asks for just what was drafted last, and no connection landed after that. */
  predicate StillMade(request: Request, current: Current) {
    request.ask == current.ask && (current.landed.None? || current.landed.value <= request.draftedAt)
  }

  /** No send has it: none claimed it, or the last claim ran out with no timestamp from Slack. */
  predicate IsFree(request: Request, now: Time) {
    request.messagedAt.None? || (request.messageProviderTs.None? && now >= request.messagedAt.value + 600000)
  }

  /**
   * A request is drafted once: again only when the card asks for something else, or a connection landed since. A draft
   * is one line on the record with its words; its message is scheduled, for the draft the card then holds, when it is
   * to be messaged and no send has it.
   */
  lemma DraftedOnce(card: Card, current: Current, messaged: bool, now: Time)
    ensures
      var after := Draft(card, current, now);
      if card.request.Some? && StillMade(card.request.value, current) then after == card
      else
        && after.id == card.id && after.lines == card.lines + [Line(card.id, now, current.text)]
        && after.request == Some(Request(current.ask, now, None, None, None, None))
    ensures
      var after := Draft(card, current, now);
      && after.request.Some? && StillMade(after.request.value, current.(landed := None))
      && Draft(after, current.(landed := None), now + 1) == after
      && Schedules(card, current, messaged, now) ==
           if messaged && (after != card || IsFree(after.request.value, now)) then Some(after.request.value.draftedAt)
           else None
  {
    var after := Draft(card, current, now);
    if after != card {
      assert after.lines != card.lines;
    }
  }

  /** Telling that a request was copied or sent by mail writes that one time, and is undone by nothing of its own. */
  lemma TimesApart(card: Card, copied: Time, emailed: Time)
    ensures
      var both := RecordSent(RecordSent(card, Copied, copied), Emailed, emailed);
      && both == RecordSent(RecordSent(card, Emailed, emailed), Copied, copied)
      && (card.request.None? ==> both == card)
      && (card.request.Some? ==>
            both == card.(request := Some(card.request.value.(
              copiedAt := Some(copied), emailedAt := Some(emailed)))))
  {
  }

  /** Slack's timestamp is kept on the draft it is named for alone, beside the time of its claim if one stands. */
  lemma RecordedExactly(card: Card, draftedAt: Time, providerTs: string, now: Time)
    ensures
      var after := RecordMessage(card, draftedAt, providerTs, now);
      if card.request.Some? && card.request.value.draftedAt == draftedAt then
        after == card.(request := Some(card.request.value.(
          messageProviderTs := Some(providerTs), messagedAt := Some(card.request.value.messagedAt.GetOr(now)))))
      else after == card
  {
  }

  /** While no newer draft took its place a draft keeps its ask. */
  ghost predicate AsksStill(card: Card, draftedAt: Time, ask: Ask) {
    && card.request.Some? && draftedAt <= card.request.value.draftedAt
    && (card.request.value.draftedAt == draftedAt ==> card.request.value.ask == ask)
  }

  lemma StepAsksStill(card: Card, timed: Timed, now: int, draftedAt: Time, ask: Ask)
    requires Inv(card) && Follows(card, timed, now) && AsksStill(card, draftedAt, ask)
    ensures AsksStill(Apply(card, timed), draftedAt, ask)
  {
    StepGoesOn(card, timed, now);
  }

  lemma {:induction false} RunAsksStill(card: Card, steps: seq<Timed>, now: int, draftedAt: Time, ask: Ask)
    requires Inv(card) && Timely(card, steps, now) && AsksStill(card, draftedAt, ask)
    ensures AsksStill(Run(card, steps), draftedAt, ask)
  {
    if steps != [] {
      var front, last := steps[..|steps| - 1], steps[|steps| - 1];
      RunAsksStill(card, front, now, draftedAt, ask);
      RunKeepsInv(card, front, now);
      StepAsksStill(Run(card, front), last, LastAt(front, now), draftedAt, ask);
    }
  }

  lemma DraftAsksStill(card: Card, current: Current, at: Time, steps: seq<Timed>)
    requires Inv(card) && Redrafts(card, Timed(at, DoDraft(current))) && Follows(card, Timed(at, DoDraft(current)), at)
    requires Timely(Draft(card, current, at), steps, at)
    ensures AsksStill(Run(Draft(card, current, at), steps), at, current.ask)
  {
    StepKeepsInv(card, Timed(at, DoDraft(current)), at);
    RunAsksStill(Draft(card, current, at), steps, at, at, current.ask);
  }

  lemma ClaimChecks(card: Card, at: Time, ask: Ask, around: Around, now: Time)
    requires AsksStill(card, at, ask)
    ensures card.request.Some?
    ensures
      Claim(card, at, around, now).Claimed? <==>
      && card.request.value.draftedAt == at && IsFree(card.request.value, now)
      && around.employed && around.carried && around.current.Some?
      && around.current.value.ask == ask
      && (around.current.value.landed.None? || around.current.value.landed.value <= at)
      && DraftedWords(card, at).Some?
    ensures
      ClaimMessage(card, at, around, now) ==
        if Claim(card, at, around, now).Claimed?
        then card.(request := Some(card.request.value.(messagedAt := Some(now)))) else card
  {
    hide DraftedWords;
  }

  /**
   * When a claim of a draft succeeds, whatever happened since: exactly while the card still holds that draft, no send
   * has it, the employee is there with a chat that can carry it, the card still makes that very ask with no connection
   * landed since, and fewer than 50 of the employee's request lines followed the draft's own. Then it sends the
   * draft's words escaped, and the claim is stamped with its time; a refusal writes nothing.
   */
  lemma ClaimSucceedsExactly(card: Card, current: Current, at: Time, steps: seq<Timed>, around: Around, now: Time)
    requires Inv(card) && Redrafts(card, Timed(at, DoDraft(current))) && Follows(card, Timed(at, DoDraft(current)), at)
    requires Timely(Draft(card, current, at), steps, at)
    ensures
      var after := Run(Draft(card, current, at), steps);
      var claim := Claim(after, at, around, now);
      && after.request.Some?
      && (claim.Claimed? <==>
            && after.request.value.draftedAt == at && IsFree(after.request.value, now)
            && around.employed && around.carried && around.current.Some?
            && around.current.value.ask == current.ask
            && (around.current.value.landed.None? || around.current.value.landed.value <= at)
            && |after.lines| - |card.lines| - 1 < 50)
      && (claim.Claimed? ==> claim.text == SlackEscaped(current.text))
      && ClaimMessage(after, at, around, now) ==
           if claim.Claimed? then after.(request := Some(after.request.value.(messagedAt := Some(now)))) else after
  {
    WordsAreFound(card, current, at, steps);
    SentWordsAreTheDrafts(card, current, at, steps, around, now);
    DraftAsksStill(card, current, at, steps);
    hide Inv, Timely, Redrafts, Follows, Run, Draft, Claim, DraftedWords, AsksStill, IsFree;
    ClaimChecks(Run(Draft(card, current, at), steps), at, current.ask, around, now);
  }
}
