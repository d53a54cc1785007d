/** The card's request field as the mutations patch it (convex/accessRequests.ts). */
module RequestCard {
  import opened Prelude
  import opened SlackMarkup
  import opened AccessRequests

  class Surface {
    const id: nat
    var request: Option<Request>
    var lines: seq<Line>

    ghost function Contents(): (card: Card)
      reads this
    {
      Card(id, request, lines)
    }

    constructor (id: nat, lines: seq<Line>)
      requires forall line <- lines :: line.card != id
      ensures Contents() == Card(id, None, lines) && Inv(Contents())
    {
      this.id := id;
      request := None;
      this.lines := lines;
    }

    /** Draft the request, once; answers the draft a message is scheduled for, if one is. */
    method DraftRequest(current: Current, messaged: bool, now: Time) returns (scheduled: Option<Time>)
      modifies this
      ensures Contents() == Draft(old(Contents()), current, now)
      ensures scheduled == Schedules(old(Contents()), current, messaged, now)
      ensures scheduled.Some? ==> request.Some? && request.value.draftedAt == scheduled.value
    {
      var recorded := RecordedRequest(Card(id, request, lines), current);
      if recorded.Some? {
        if messaged && !MessageClaimed(recorded.value, now) { return Some(recorded.value.draftedAt); }
        return None;
      }
      request := Some(Request(current.ask, now, None, None, None, None));
      lines := lines + [Line(id, now, current.text)];
      scheduled := if messaged then Some(now) else None;
    }

    method RecordSentVia(via: Via, now: Time) returns (drafted: bool)
      modifies this
      ensures Contents() == RecordSent(old(Contents()), via, now)
      ensures drafted <==> old(request).Some?
    {
      if request.None? { return false; }
      match via {
        case Copied => request := Some(request.value.(copiedAt := Some(now)));
        case Emailed => request := Some(request.value.(emailedAt := Some(now)));
      }
      drafted := true;
    }

    /** The newest request lines, read one by one from the newest. */
    method FindDraftedWords(draftedAt: Time) returns (words: Option<string>)
      ensures words == DraftedWords(Contents(), draftedAt)
    {
      var read := NewestLines(lines);
      var i := |read|;
      assert read[..i] == read;
      while i > 0
        invariant 0 <= i <= |read|
        invariant FindLine(read[..i], id, draftedAt) == DraftedWords(Contents(), draftedAt)
      {
        i := i - 1;
        assert read[..i + 1][..i] == read[..i];
        if read[i].createdAt == draftedAt && read[i].card == id { return Some(read[i].text); }
      }
      words := None;
    }

    method ClaimMessageOf(draftedAt: Time, around: Around, now: Time) returns (claim: Claimed)
      modifies this
      ensures claim == Claim(old(Contents()), draftedAt, around, now)
      ensures Contents() == ClaimMessage(old(Contents()), draftedAt, around, now)
      ensures claim.Claimed? ==> request.Some? && MessageClaimed(request.value, now)
    {
      if request.None? || request.value.draftedAt != draftedAt {
        return Refused("the request was redrafted or is gone");
      }
      if MessageClaimed(request.value, now) { return Refused("the request was already sent to the manager"); }
      if !around.employed { return Refused("the employee is gone"); }
      if around.current.None? || RecordedRequest(Card(id, request, lines), around.current.value).None? {
        return Refused("the card no longer makes this request");
      }
      var words := FindDraftedWords(draftedAt);
      if words.None? { return Refused("the drafted request is not recorded"); }
      if !around.carried { return Refused("the employee has no chat connection that can carry it"); }
      request := Some(request.value.(messagedAt := Some(now)));
      claim := Claimed(SlackEscaped(words.value));
    }

    method RecordMessageOf(draftedAt: Time, providerTs: string, now: Time)
      modifies this
      ensures Contents() == RecordMessage(old(Contents()), draftedAt, providerTs, now)
    {
      if request.None? || request.value.draftedAt != draftedAt { return; }
      var messagedAt := if request.value.messagedAt.Some? then request.value.messagedAt else Some(now);
      request := Some(request.value.(messagedAt := messagedAt, messageProviderTs := Some(providerTs)));
    }

    method ReleaseMessageOf(draftedAt: Time, claimedAt: Option<Time>)
      modifies this
      ensures Contents() == ReleaseMessage(old(Contents()), draftedAt, claimedAt)
    {
      if request.None? || request.value.draftedAt != draftedAt { return; }
      if request.value.messageProviderTs.Some? { return; }
      if claimedAt.Some? && request.value.messagedAt != claimedAt { return; }
      if request.value.messagedAt.None? { return; }
      request := Some(request.value.(messagedAt := None));
    }
  }
}
