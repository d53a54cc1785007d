/** The charter table as its mutations write it in place (convex/charters.ts). */
module CharterBook {
  import opened Prelude
  import opened Charters

  /** Whether the employee is deployed again, its charter never approved, and whether a draft went with it. */
  datatype Discard = Discard(returnedToDeployed: bool, discarded: bool)

  class Ledger {
    var charters: map<nat, Charter>
    var next: nat
    var states: map<nat, State>
    var events: seq<Event>

    ghost function Contents(): Book
      reads this
    {
      Book(charters, next, states, events)
    }

    constructor ()
      ensures Contents() == EMPTY && Inv(Contents())
    {
      charters, next, states, events := map[], 0, map[], [];
    }

    method CommitCharter(agent: nat, version: Version, body: Body) returns (id: Result<nat, string>)
      modifies this
      ensures id == if agent in old(states) then Ok(old(next)) else Err("no such employee")
      ensures Contents() == Apply(old(Contents()), DoCommit(agent, version, body))
    {
      if agent !in states { return Err("no such employee"); }
      id := Ok(next);
      charters := charters[next := Charter(agent, version, body, false, None)];
      events := events + [Drafted(next, version)];
      next := next + 1;
      states := states[agent := CharterPending];
    }

    /** A strike flagged on a draft, or taken off it; false when it is refused and nothing is written. */
    method SetConstraintStruck(id: nat, index: int, struck: bool, preview: Preview) returns (ok: Result<bool, string>)
      modifies this
      ensures Contents() == Apply(old(Contents()), DoStrike(id, index, struck, preview))
      ensures ok.Ok? <==> Strike(old(Contents()), id, index, struck, preview).Ok?
      ensures ok.Ok? ==>
        && 0 <= index < |old(charters)[id].body.struck|
        && (ok.value <==> !struck || old(charters)[id].body.struck[index] || preview.ChangesClauses?)
    {
      if id !in charters { return Err("no such charter"); }
      var charter := charters[id];
      if charter.approved { return Err("the charter is approved"); }
      if !(0 <= index < |charter.body.struck|) { return Err("no such constraint"); }
      if struck && !charter.body.struck[index] {
        if preview.PreviewRefused? || preview.ChangesNoClause? { return Ok(false); }
      }
      charters := charters[id := charter.(body := charter.body.(struck := charter.body.struck[index := struck]))];
      ok := Ok(true);
    }

    /** Approve a draft, its strikes applied to its clauses; false when a strike is refused and nothing is written. */
    method ApproveCharter(id: nat, strikes: Strikes) returns (ok: Result<bool, string>)
      modifies this
      ensures ok.Err? <==> id !in old(charters)
      ensures Contents() == Apply(old(Contents()), DoApprove(id, strikes))
      ensures ok.Ok? ==> (ok.value <==> charters[id].approved)
      ensures ok == Ok(true) && !old(charters)[id].approved ==>
        && (AnyStruck(old(charters)[id].body) ==> strikes.Applied?)
        && charters[id].body == (if AnyStruck(old(charters)[id].body) then strikes.body else old(charters)[id].body)
    {
      if id !in charters { return Err("no such charter"); }
      var charter := charters[id];
      if charter.approved { return Ok(true); }
      var struck := exists i :: 0 <= i < |charter.body.struck| && charter.body.struck[i];
      if struck {
        if strikes.StrikeRefused? { return Ok(false); }
        charters := charters[id := charter.(body := strikes.body, approved := true)];
      } else {
        charters := charters[id := charter.(approved := true)];
      }
      states := states[charter.agent := Active];
      events := events + [Approved(id)];
      ok := Ok(true);
    }

    method AmendCharter(agent: nat, change: Change) returns (id: Result<nat, string>)
      modifies this
      ensures Contents() == Apply(old(Contents()), DoAmend(agent, change))
      ensures id.Ok? <==> Amend(old(Contents()), agent, change).Ok?
      ensures id.Ok? ==> id.value in charters && charters[id.value].supersedes == Latest(old(Contents()), agent)
      ensures id.Ok? ==> Latest(Contents(), agent) == Some(id.value)
    {
      var previous := Latest(Book(charters, next, states, events), agent);
      if previous.None? { return Err("the agent has no charter to amend"); }
      var before := charters[previous.value];
      if !before.approved { return Err("the charter is not approved yet"); }
      var version := NextVersion(before.version);
      if version.None? { return Err("cannot bump charter version"); }
      if !change.Changed? { return Err("the amendment changes nothing"); }
      id := Ok(next);
      charters := charters[next := Charter(agent, version.value, change.body, true, previous)];
      events := events + [Amended(next, previous.value, version.value, before.version)];
      next := next + 1;
      LatestIsTheNewest(Contents(), agent);
    }

    method RequestChangesOf(id: nat, note: nat, transcript: bool) returns (redrafting: Result<bool, string>)
      modifies this
      ensures Contents() == Apply(old(Contents()), DoRequestChanges(id, note, transcript))
      ensures redrafting.Ok? <==> RequestChanges(old(Contents()), id, note, transcript).Ok?
      ensures redrafting.Ok? ==> redrafting.value == (note > 0 && transcript)
    {
      if id !in charters { return Err("no such charter"); }
      var charter := charters[id];
      if charter.approved { return Err("an approved charter cannot be sent back"); }
      var latest := Latest(Book(charters, next, states, events), charter.agent);
      if latest != Some(id) { return Err("only the latest draft can be sent back"); }
      if note > CHANGE_REQUEST_MAX_CHARS { return Err("the note is too long"); }
      redrafting := Ok(note > 0 && transcript);
      charters := charters - {id};
      events := events + [SentBack(id, note > 0 && transcript)];
      var remains := AnyApproved(charters, charter.agent);
      var back := if remains then Active else if note > 0 && transcript then DayOne else Deployed;
      states := states[charter.agent := back];
    }

    /** The handover's move: each draft deleted in turn, and whether the employee starts over and lost a draft. */
    method DiscardUnapprovedCharter(agent: nat) returns (answer: Result<Discard, string>)
      modifies this
      ensures Contents() == Apply(old(Contents()), DoDiscard(agent))
      ensures answer.Ok? <==> DiscardUnapproved(old(Contents()), agent).Ok?
      ensures answer.Ok? && Inv(old(Contents())) ==>
        && (answer.value.returnedToDeployed <==> !AnyApproved(old(charters), agent))
        && (answer.value.discarded <==>
              !AnyApproved(old(charters), agent) && exists id <- old(charters) :: old(charters)[id].agent == agent)
    {
      if agent !in states { return Err("no such employee"); }
      ghost var book := Contents();
      var decided := CharterAtHandover(Book(charters, next, states, events), agent);
      if decided.Carried? { return Ok(Discard(false, false)); }
      if decided.Refused? { return Err("more drafts than one handover can discard"); }
      DeleteEach(decided.drafts);
      states := states[agent := Deployed];
      answer := Ok(Discard(true, decided.drafts != []));
      if Inv(book) {
        DiscardedAreAll(book, agent);
        assert decided.drafts != [] ==> decided.drafts[0] in decided.drafts;
      }
    }

    method DeleteEach(drafts: seq<nat>)
      modifies this`charters
      ensures charters == old(charters) - Ids(drafts)
    {
      for i := 0 to |drafts|
        invariant charters == old(charters) - Ids(drafts[..i])
      {
        assert drafts[..i + 1] == drafts[..i] + [drafts[i]];
        assert Ids(drafts[..i + 1]) == Ids(drafts[..i]) + {drafts[i]};
        charters := charters - {drafts[i]};
      }
      assert drafts[..|drafts|] == drafts;
    }

    /** The walk back over the amendments, a bounded number of hops. */
    method FirstVersionOf(id: nat) returns (first: nat)
      requires id in charters
      ensures first == WalkBack(charters, id, VERSIONS_WALKED)
      ensures
        Inv(Contents()) ==>
          first in charters && (charters[first].supersedes.None? <==> Depth(charters, id) <= VERSIONS_WALKED)
    {
      first := id;
      var hops := 0;
      while charters[first].supersedes.Some? && hops < VERSIONS_WALKED
        invariant first in charters && 0 <= hops <= VERSIONS_WALKED
        invariant WalkBack(charters, first, VERSIONS_WALKED - hops) == WalkBack(charters, id, VERSIONS_WALKED)
        decreases VERSIONS_WALKED - hops
      {
        var previous := charters[first].supersedes.value;
        if previous !in charters { break; }
        first := previous;
        hops := hops + 1;
      }
      if Inv(Contents()) {
        WalkEndsAtTheDraft(Contents(), id, VERSIONS_WALKED);
      }
    }
  }
}
