/**
 * One card's access request: drafted, sent on, and its direct message claimed, recorded and released
 * (convex/accessRequests.ts).
 */
module AccessRequests {
  import opened Prelude
  import opened SlackMarkup

  const MESSAGE_CLAIM_STANDS_MS: int := 10 * 60 * 1000
  const DRAFT_EVENT_READ_LIMIT: nat := 50

  /** What a request asks for and why. */
  datatype Ask = Ask(reason: string, scopes: seq<string>)

  datatype Request = Request(
    ask: Ask, draftedAt: Time, copiedAt: Option<Time>, emailedAt: Option<Time>,
    messagedAt: Option<Time>, messageProviderTs: Option<string>)

  /** A line of the employee's record announcing a drafted request, with its words. */
  datatype Line = Line(card: nat, createdAt: Time, text: string)

  /** The card's request and the employee's request lines, oldest first. */
  datatype Card = Card(id: nat, request: Option<Request>, lines: seq<Line>)

  /** What the card makes now: its ask and words, and when the newest connection of its system landed. */
  datatype Current = Current(ask: Ask, text: string, landed: Option<Time>)

  /** A request that Slack has a timestamp for, or that some send has claimed within the bound. */
  predicate MessageClaimed(request: Request, now: Time) {
    && request.messagedAt.Some?
    && (request.messageProviderTs.Some? || now - request.messagedAt.value < MESSAGE_CLAIM_STANDS_MS)
  }

  /** The request drafted last, for as long as the card asks for it. */
  function RecordedRequest(card: Card, current: Current): Option<Request> {
    if card.request.None? || card.request.value.ask != current.ask then None
    else if current.landed.Some? && current.landed.value > card.request.value.draftedAt then None
    else card.request
  }

  /** The newest of some lines that a draft of the card left at that time. */
  function FindLine(lines: seq<Line>, id: nat, draftedAt: Time): Option<string> {
    if lines == [] then None
    else
      var last := lines[|lines| - 1];
      if last.createdAt == draftedAt && last.card == id then Some(last.text)
      else FindLine(lines[..|lines| - 1], id, draftedAt)
  }

  function NewestLines(lines: seq<Line>): seq<Line> {
    if |lines| <= DRAFT_EVENT_READ_LIMIT then lines else lines[|lines| - DRAFT_EVENT_READ_LIMIT..]
  }

  function DraftedWords(card: Card, draftedAt: Time): Option<string> {
    FindLine(NewestLines(card.lines), card.id, draftedAt)
  }

  // ---------------------------------------------------------------- the mutations

  function Draft(card: Card, current: Current, now: Time): Card {
    if RecordedRequest(card, current).Some? then card
    else card.(request := Some(Request(current.ask, now, None, None, None, None)),
      lines := card.lines + [Line(card.id, now, current.text)])
  }

  /** Whether drafting schedules the direct message, and for which draft. */
  function Schedules(card: Card, current: Current, messaged: bool, now: Time): Option<Time> {
    var recorded := RecordedRequest(card, current);
    if !messaged then None
    else if recorded.None? then Some(now)
    else if MessageClaimed(recorded.value, now) then None
    else Some(recorded.value.draftedAt)
  }

  datatype Via = Copied | Emailed

  function RecordSent(card: Card, via: Via, now: Time): Card {
    if card.request.None? then card
    else if via.Copied? then card.(request := Some(card.request.value.(copiedAt := Some(now))))
    else card.(request := Some(card.request.value.(emailedAt := Some(now))))
  }

  /**
   * What the claim finds around the request: the employee, what the card makes, and a chat card that can carry the
   * message.
   */
  datatype Around = Around(employed: bool, current: Option<Current>, carried: bool)

  datatype Claimed = Claimed(text: string) | Refused(reason: string)

  function Claim(card: Card, draftedAt: Time, around: Around, now: Time): Claimed {
    if card.request.None? || card.request.value.draftedAt != draftedAt then
      Refused("the request was redrafted or is gone")
    else if MessageClaimed(card.request.value, now) then Refused("the request was already sent to the manager")
    else if !around.employed then Refused("the employee is gone")
    else if around.current.None? || RecordedRequest(card, around.current.value).None? then
      Refused("the card no longer makes this request")
    else
      var words := DraftedWords(card, draftedAt);
      if words.None? then Refused("the drafted request is not recorded")
      else if !around.carried then Refused("the employee has no chat connection that can carry it")
      else Claimed(SlackEscaped(words.value))
  }

  function ClaimMessage(card: Card, draftedAt: Time, around: Around, now: Time): Card {
    if Claim(card, draftedAt, around, now).Refused? || card.request.None? then card
    else card.(request := Some(card.request.value.(messagedAt := Some(now))))
  }

  function RecordMessage(card: Card, draftedAt: Time, providerTs: string, now: Time): Card {
    if card.request.None? || card.request.value.draftedAt != draftedAt then card
    else
      var recorded := card.request.value;
      card.(request := Some(recorded.(
              messagedAt := if recorded.messagedAt.Some? then recorded.messagedAt else Some(now),
              messageProviderTs := Some(providerTs))))
  }

  /**
   * Whether a release ends the claim: of this draft, with no timestamp, and of the claim it names when it names one.
   */
  predicate Releases(card: Card, draftedAt: Time, claimedAt: Option<Time>) {
    && card.request.Some? && card.request.value.draftedAt == draftedAt
    && card.request.value.messageProviderTs.None? && card.request.value.messagedAt.Some?
    && (claimedAt.Some? ==> card.request.value.messagedAt == claimedAt)
  }

  function ReleaseMessage(card: Card, draftedAt: Time, claimedAt: Option<Time>): Card {
    if Releases(card, draftedAt, claimedAt) then card.(request := Some(card.request.value.(messagedAt := None)))
    else card
  }

  // ---------------------------------------------------------------- every run

  /**
   * A transaction on the card, or another card's line on the same record, each at the clock's reading; an action that
   * died is one whose later steps are missing.
   */
  datatype Step =
    | DoDraft(current: Current)
    | DoSent(via: Via)
    | DoClaim(draftedAt: Time, around: Around)
    | DoRecord(draftedAt: Time, providerTs: string)
    | DoRelease(draftedAt: Time, claimedAt: Option<Time>)
    | DoOther(line: Line)

  datatype Timed = Timed(at: Time, step: Step)

  function Apply(card: Card, timed: Timed): Card {
    match timed.step
    case DoDraft(current) => Draft(card, current, timed.at)
    case DoSent(via) => RecordSent(card, via, timed.at)
    case DoClaim(draftedAt, around) => ClaimMessage(card, draftedAt, around, timed.at)
    case DoRecord(draftedAt, providerTs) => RecordMessage(card, draftedAt, providerTs, timed.at)
    case DoRelease(draftedAt, claimedAt) => ReleaseMessage(card, draftedAt, claimedAt)
    case DoOther(line) => if line.card == card.id then card else card.(lines := card.lines + [line])
  }

  function Run(card: Card, steps: seq<Timed>): Card {
    if steps == [] then card else Apply(Run(card, steps[..|steps| - 1]), steps[|steps| - 1])
  }

  predicate Redrafts(card: Card, timed: Timed) {
    timed.step.DoDraft? && RecordedRequest(card, timed.step.current).None?
  }

  /** The clock never goes back, and a redraft has a reading of its own. */
  predicate Follows(card: Card, timed: Timed, now: int) {
    && now <= timed.at
    && (Redrafts(card, timed) ==> forall line <- card.lines | line.card == card.id :: line.createdAt < timed.at)
  }

  function LastAt(steps: seq<Timed>, now: int): int {
    if steps == [] then now else steps[|steps| - 1].at
  }

  predicate Timely(card: Card, steps: seq<Timed>, now: int) {
    steps == [] ||
    (var front := steps[..|steps| - 1];
     Timely(card, front, now) && Follows(Run(card, front), steps[|steps| - 1], LastAt(front, now)))
  }

  /** A card's own lines stand at ever later times. */
  predicate InOrderOfTime(lines: seq<Line>, id: nat) {
    forall i, j ::
      0 <= i < j < |lines| && lines[i].card == id && lines[j].card == id ==> lines[i].createdAt < lines[j].createdAt
  }

  /** The current request is the newest the card drafted, and no two drafts of it share a time. */
  ghost predicate Inv(card: Card) {
    && InOrderOfTime(card.lines, card.id)
    && (card.request.Some? ==>
          && (exists line <- card.lines :: line.card == card.id && line.createdAt == card.request.value.draftedAt)
          && forall line <- card.lines | line.card == card.id :: line.createdAt <= card.request.value.draftedAt)
  }

  lemma StepKeepsInv(card: Card, timed: Timed, now: int)
    requires Inv(card) && Follows(card, timed, now)
    ensures Inv(Apply(card, timed))
  {
    var after := Apply(card, timed);
    if Redrafts(card, timed) {
      assert after.lines[|card.lines|] == Line(card.id, timed.at, timed.step.current.text);
      assert forall line <- after.lines :: line in card.lines || line == after.lines[|card.lines|];
    } else if after.lines == card.lines {
      assert after.request.Some? <==> card.request.Some?;
    } else {
      OtherLineKeepsInv(card, timed.step.line);
    }
  }

  lemma OtherLineKeepsInv(card: Card, line: Line)
    requires Inv(card) && line.card != card.id
    ensures Inv(card.(lines := card.lines + [line]))
  {
    var after := card.lines + [line];
    assert forall x <- after :: x in card.lines || x == line;
    if card.request.Some? {
      var own :| own in card.lines && own.card == card.id && own.createdAt == card.request.value.draftedAt;
      assert own in after;
    }
  }

  /** Over a run the card's requests are drafted at ever later times, its lines only grow, and the clock with them. */
  lemma {:induction false} RunKeepsInv(card: Card, steps: seq<Timed>, now: int)
    requires Inv(card) && Timely(card, steps, now)
    ensures
      var after := Run(card, steps);
      && Inv(after) && after.id == card.id && card.lines <= after.lines && now <= LastAt(steps, now)
      && (card.request.Some? ==> after.request.Some? && card.request.value.draftedAt <= after.request.value.draftedAt)
  {
    if steps != [] {
      var front, last := steps[..|steps| - 1], steps[|steps| - 1];
      RunKeepsInv(card, front, now);
      StepKeepsInv(Run(card, front), last, LastAt(front, now));
      StepGoesOn(Run(card, front), last, LastAt(front, now));
    }
  }

  lemma StepGoesOn(card: Card, timed: Timed, now: int)
    requires Inv(card) && Follows(card, timed, now)
    ensures
      var after := Apply(card, timed);
      && after.id == card.id && card.lines <= after.lines
      && (card.request.Some? ==> after.request.Some? && card.request.value.draftedAt <= after.request.value.draftedAt)
      && (card.request.Some? && Redrafts(card, timed) ==> card.request.value.draftedAt < after.request.value.draftedAt)
  {
  }

  // ---------------------------------------------------------------- the protocol

  predicate Of(step: Step, draftedAt: Time) {
    match step
    case DoClaim(d, _) => d == draftedAt
    case DoRecord(d, _) => d == draftedAt
    case DoRelease(d, _) => d == draftedAt
    case _ => false
  }

  /**
   * After a redraft no claim, record or release of the earlier draft changes anything, at any later point of any run.
   */
  lemma EarlierDraftIsOver(card: Card, steps: seq<Timed>, now: int, draftedAt: Time, late: Timed)
    requires Inv(card) && Timely(card, steps, now) && card.request.Some? && draftedAt < card.request.value.draftedAt
    requires Of(late.step, draftedAt)
    ensures Apply(Run(card, steps), late) == Run(card, steps)
  {
    RunKeepsInv(card, steps, now);
  }

  predicate Sent(card: Card, draftedAt: Time, messagedAt: Option<Time>) {
    card.request.Some? &&
    (card.request.value.draftedAt == draftedAt ==>
        card.request.value.messageProviderTs.Some? && card.request.value.messagedAt == messagedAt)
  }

  /** Once Slack's timestamp is recorded, no release erases it and no claim of that draft succeeds, over any run. */
  lemma {:induction false} SentIsFinal(
      card: Card, steps: seq<Timed>, now: int, draftedAt: Time, around: Around, at: Time)
    requires Inv(card) && Timely(card, steps, now) && card.request.Some? && card.request.value.draftedAt == draftedAt
    requires card.request.value.messageProviderTs.Some? && card.request.value.messagedAt.Some?
    ensures Sent(Run(card, steps), draftedAt, card.request.value.messagedAt)
    ensures Claim(Run(card, steps), draftedAt, around, at).Refused?
  {
    if steps != [] {
      var front, last := steps[..|steps| - 1], steps[|steps| - 1];
      SentIsFinal(card, front, now, draftedAt, around, at);
      RunKeepsInv(card, front, now);
      StepGoesOn(Run(card, front), last, LastAt(front, now));
      StepKeepsSent(Run(card, front), last, draftedAt, card.request.value.messagedAt);
    }
  }

  lemma StepKeepsSent(card: Card, timed: Timed, draftedAt: Time, messagedAt: Option<Time>)
    requires Sent(card, draftedAt, messagedAt) && messagedAt.Some? && draftedAt <= card.request.value.draftedAt
    requires Redrafts(card, timed) ==> Apply(card, timed).request.value.draftedAt > card.request.value.draftedAt
    ensures Sent(Apply(card, timed), draftedAt, messagedAt)
  {
  }

  /** A claim made at that time or later stands on the draft, or Slack has the message. */
  predicate ClaimedSince(card: Card, draftedAt: Time, since: Time) {
    card.request.Some? &&
    var request := card.request.value;
    request.draftedAt == draftedAt ==> request.messagedAt.Some? && request.messagedAt.value >= since
  }

  /** Whether the release at some place of a run ended a claim. */
  predicate ReleasedAt(card: Card, steps: seq<Timed>, i: nat)
    requires i < |steps|
  {
    steps[i].step.DoRelease? && Releases(Run(card, steps[..i]), steps[i].step.draftedAt, steps[i].step.claimedAt)
  }

  lemma {:induction false} ClaimStands(card: Card, steps: seq<Timed>, draftedAt: Time, since: Time)
    requires Inv(card) && Timely(card, steps, since) && ClaimedSince(card, draftedAt, since)
    requires draftedAt <= card.request.value.draftedAt
    requires forall i :: 0 <= i < |steps| ==> !ReleasedAt(card, steps, i)
    ensures ClaimedSince(Run(card, steps), draftedAt, since)
  {
    if steps != [] {
      var front, last := steps[..|steps| - 1], steps[|steps| - 1];
      forall i | 0 <= i < |front|
        ensures !ReleasedAt(card, front, i)
      {
        assert front[..i] == steps[..i];
        assert !ReleasedAt(card, steps, i);
      }
      assert steps[..|front|] == front;
      ClaimStands(card, front, draftedAt, since);
      RunKeepsInv(card, front, since);
      StepGoesOn(Run(card, front), last, LastAt(front, since));
      assert !ReleasedAt(card, steps, |steps| - 1);
      ClaimStandsOneStep(Run(card, front), last, draftedAt, since);
    }
  }

  lemma ClaimStandsOneStep(card: Card, timed: Timed, draftedAt: Time, since: Time)
    requires ClaimedSince(card, draftedAt, since) && since <= timed.at && draftedAt <= card.request.value.draftedAt
    requires timed.step.DoRelease? ==> !Releases(card, timed.step.draftedAt, timed.step.claimedAt)
    requires Redrafts(card, timed) ==> Apply(card, timed).request.value.draftedAt > card.request.value.draftedAt
    ensures ClaimedSince(Apply(card, timed), draftedAt, since)
  {
  }

  /** Two claims of one draft that both succeed are a release or the claim's whole bound apart. */
  lemma ClaimsAreApart(
      card: Card, draftedAt: Time, first: Time, around: Around, between: seq<Timed>, second: Time, around': Around)
    requires Inv(card) && Claim(card, draftedAt, around, first).Claimed?
    requires Timely(ClaimMessage(card, draftedAt, around, first), between, first) && LastAt(between, first) <= second
    requires Claim(Run(ClaimMessage(card, draftedAt, around, first), between), draftedAt, around', second).Claimed?
    ensures
      || second - first >= MESSAGE_CLAIM_STANDS_MS
      || exists i :: 0 <= i < |between| && ReleasedAt(ClaimMessage(card, draftedAt, around, first), between, i)
  {
    var claimed := ClaimMessage(card, draftedAt, around, first);
    if forall i :: 0 <= i < |between| ==> !ReleasedAt(claimed, between, i) {
      StepKeepsInv(card, Timed(first, DoClaim(draftedAt, around)), first);
      ClaimStands(claimed, between, draftedAt, first);
    }
  }

  /**
   * A release that names a claim ends that claim of that draft and no other, made at whatever time; one that names none
   * ends whichever stands. Neither touches a message Slack has.
   */
  lemma ReleaseEndsExactly(card: Card, draftedAt: Time, claimedAt: Option<Time>)
    ensures
      var after := ReleaseMessage(card, draftedAt, claimedAt);
      && (after != card <==>
            && card.request.Some?
            && card.request.value.draftedAt == draftedAt
            && card.request.value.messageProviderTs.None?
            && card.request.value.messagedAt.Some? && (claimedAt.None? || claimedAt == card.request.value.messagedAt))
      && after.lines == card.lines && (after.request.Some? <==> card.request.Some?)
      && (card.request.Some? ==>
            after.request.value == card.request.value.(messagedAt := after.request.value.messagedAt))
      && (forall now: Time :: after != card ==> !MessageClaimed(after.request.value, now))
  {
  }

  /** A claim's own release undoes it, to the field; its record keeps the time of the claim and ends every release. */
  lemma ClaimIsUndoneOrKept(
      card: Card, draftedAt: Time, around: Around, at: Time, providerTs: string, later: Time, claimedAt: Option<Time>)
    requires Claim(card, draftedAt, around, at).Claimed? && card.request.Some? && card.request.value.messagedAt.None?
    requires card.request.value.messageProviderTs.None?
    ensures
      var claimed := ClaimMessage(card, draftedAt, around, at);
      var recorded := RecordMessage(claimed, draftedAt, providerTs, later);
      && ReleaseMessage(claimed, draftedAt, Some(at)) == card && ReleaseMessage(claimed, draftedAt, None) == card
      && recorded.request == Some(card.request.value.(messagedAt := Some(at), messageProviderTs := Some(providerTs)))
      && ReleaseMessage(recorded, draftedAt, claimedAt) == recorded
  {
    var claimed := ClaimMessage(card, draftedAt, around, at);
    assert claimed.request == Some(card.request.value.(messagedAt := Some(at)));
  }

  // ---------------------------------------------------------------- the words sent

  /** The line a draft left is the only one of the card at its time. */
  lemma FindLineExactly(lines: seq<Line>, id: nat, i: nat, from: nat)
    requires i < |lines| && from <= |lines| && lines[i].card == id
    requires InOrderOfTime(lines, id)
    ensures FindLine(lines[from..], id, lines[i].createdAt) == if from <= i then Some(lines[i].text) else None
  {
    FindLineIn(lines[from..], id, lines[i].createdAt);
    var found := FindLine(lines[from..], id, lines[i].createdAt);
    if from <= i {
      assert lines[from..][i - from] == lines[i];
    }
    if found.Some? {
      var rest := lines[from..];
      var j :|
        0 <= j < |rest| && rest[j].card == id && rest[j].createdAt == lines[i].createdAt && rest[j].text == found.value;
      assert lines[from + j] == lines[from..][j];
    }
  }

  lemma {:induction false} FindLineIn(lines: seq<Line>, id: nat, draftedAt: Time)
    ensures FindLine(lines, id, draftedAt).None? <==> forall j :: 0 <= j < |lines| ==>
        !(lines[j].card == id && lines[j].createdAt == draftedAt)
    ensures
      var found := FindLine(lines, id, draftedAt);
      found.Some? ==>
        exists j ::
          0 <= j < |lines| && lines[j].card == id && lines[j].createdAt == draftedAt && lines[j].text == found.value
  {
    if lines != [] {
      FindLineIn(lines[..|lines| - 1], id, draftedAt);
    }
  }

  lemma NewestFrom(lines: seq<Line>, from: nat)
    requires from == if |lines| <= DRAFT_EVENT_READ_LIMIT then 0 else |lines| - DRAFT_EVENT_READ_LIMIT
    ensures NewestLines(lines) == lines[from..]
  {
  }

  /** Where a draft's own line stands after any run. */
  lemma DraftedLineStays(card: Card, current: Current, at: Time, steps: seq<Timed>)
    requires Inv(card) && Redrafts(card, Timed(at, DoDraft(current))) && Follows(card, Timed(at, DoDraft(current)), at)
    requires Timely(Draft(card, current, at), steps, at)
    ensures
      var lines := Run(Draft(card, current, at), steps).lines;
      |card.lines| < |lines| && lines[|card.lines|] == Line(card.id, at, current.text)
  {
    var drafted := Draft(card, current, at);
    StepKeepsInv(card, Timed(at, DoDraft(current)), at);
    RunKeepsInv(drafted, steps, at);
    assert drafted.lines[|card.lines|] == Line(card.id, at, current.text);
  }

  /**
   * The words a draft recorded are found again after any run, exactly while its own line is among the newest the read
   * takes: fewer than the read's bound of lines have followed it.
   */
  lemma WordsAreFound(card: Card, current: Current, at: Time, steps: seq<Timed>)
    requires Inv(card) && Redrafts(card, Timed(at, DoDraft(current))) && Follows(card, Timed(at, DoDraft(current)), at)
    requires Timely(Draft(card, current, at), steps, at)
    ensures
      var after := Run(Draft(card, current, at), steps);
      var followed := |after.lines| - |card.lines| - 1;
      DraftedWords(after, at) == if followed < DRAFT_EVENT_READ_LIMIT then Some(current.text) else None
  {
    var drafted := Draft(card, current, at);
    StepKeepsInv(card, Timed(at, DoDraft(current)), at);
    RunKeepsInv(drafted, steps, at);
    DraftedLineStays(card, current, at, steps);
    var lines := Run(drafted, steps).lines;
    var from := if |lines| <= DRAFT_EVENT_READ_LIMIT then 0 else |lines| - DRAFT_EVENT_READ_LIMIT;
    NewestFrom(lines, from);
    FindLineExactly(lines, card.id, |card.lines|, from);
  }

  /**
   * Whatever happens between a draft and a claim of it, the text sent is the draft's own words, and Slack shows them as
   * they were written.
   */
  lemma SentWordsAreTheDrafts(card: Card, current: Current, at: Time, steps: seq<Timed>, around: Around, now: Time)
    requires Inv(card) && Redrafts(card, Timed(at, DoDraft(current))) && Follows(card, Timed(at, DoDraft(current)), at)
    requires Timely(Draft(card, current, at), steps, at)
    ensures
      var claim := Claim(Run(Draft(card, current, at), steps), at, around, now);
      claim.Claimed? ==> claim.text == SlackEscaped(current.text) && Shown(claim.text) == current.text
  {
    WordsAreFound(card, current, at, steps);
    EscapedShowsAsWritten(current.text);
  }

  // ---------------------------------------------------------------- an action that gave up late

  /**
   * A failed send's own release names no claim: one that comes back after its claim's bound ends the claim of a send
   * still under way.
   */
  lemma LateFailureEndsAnother(start: Card, around: Around, first: Time)
    requires start.request.Some? && start.request.value.messageProviderTs.None?
    requires Claim(start, start.request.value.draftedAt, around, first).Claimed?
    ensures
      var draftedAt := start.request.value.draftedAt;
      var expired := first + MESSAGE_CLAIM_STANDS_MS;
      var claimed := ClaimMessage(start, draftedAt, around, first);
      var released := ReleaseMessage(claimed, draftedAt, Some(first));
      var again := ClaimMessage(released, draftedAt, around, expired);
      && Claim(released, draftedAt, around, expired).Claimed?
      && MessageClaimed(again.request.value, expired + 1)
      && !MessageClaimed(ReleaseMessage(again, draftedAt, None).request.value, expired + 1)
  {
  }
}
