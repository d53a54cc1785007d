/** What a charter's manager approves: its words as drafted, the strikes made since, and who they are in force for. */
module CharterBodies {
  import opened Prelude
  import opened Charters

  // ---------------------------------------------------------------- a draft's strikes

  /** Whether a constraint stands struck after a step: a strike is honoured when it changes some clause. */
  function StruckNow(step: Step, id: nat, i: nat, before: bool): bool {
    match step
    case DoStrike(charter, index, struck, preview) =>
      if charter == id && index == i && (!struck || before || preview.ChangesClauses?) then struck else before
    case _ => before
  }

  /** And after some steps: as the last honoured strike or restoring of it left it. */
  function StruckBy(steps: seq<Step>, id: nat, i: nat, was: bool): bool {
    if steps == [] then was
    else StruckNow(steps[|steps| - 1], id, i, StruckBy(steps[..|steps| - 1], id, i, was))
  }

  /** Steps that neither approve a draft nor delete it. */
  predicate LeavesDraft(step: Step, id: nat, agent: nat) {
    match step
    case DoApprove(approved, _) => approved != id
    case DoRequestChanges(back, _, _) => back != id
    case DoDiscard(gone) => gone != agent
    case _ => true
  }

  function StrikesOf(steps: seq<Step>, id: nat, struck: seq<bool>): seq<bool> {
    seq(|struck|, i requires 0 <= i < |struck| => StruckBy(steps, id, i, struck[i]))
  }

  /** A draft as some steps leave it: its own row, but for its strikes. */
  function DraftAfter(draft: Charter, steps: seq<Step>, id: nat): Charter {
    draft.(body := draft.body.(struck := StrikesOf(steps, id, draft.body.struck)))
  }

  /** One step leaves the row, or strikes or restores one of its constraints. */
  predicate StruckOnce(draft: Charter, after: Charter, step: Step, id: nat) {
    && after == draft.(body := draft.body.(struck := after.body.struck))
    && |after.body.struck| == |draft.body.struck|
    && forall i :: 0 <= i < |draft.body.struck| ==>
        after.body.struck[i] == StruckNow(step, id, i, draft.body.struck[i])
  }

  lemma StepLeavesDraft(book: Book, step: Step, id: nat)
    requires Numbered(book) && id in book.charters && !book.charters[id].approved
    requires LeavesDraft(step, id, book.charters[id].agent)
    ensures
      var after := Apply(book, step);
      id in after.charters && StruckOnce(book.charters[id], after.charters[id], step, id)
  {
    match step
    case DoStrike(charter, index, struck, preview) =>
    case DoDiscard(agent) => DiscardLeavesOthers(book, agent, id);
    case DoAmend(agent, change) => AmendLeavesOthers(book, agent, change, id);
    case _ =>
      hide Latest, VersionsOf, AnyApproved;
  }

  lemma AmendLeavesOthers(book: Book, agent: nat, change: Change, id: nat)
    requires Numbered(book) && id in book.charters
    ensures
      var after := Apply(book, DoAmend(agent, change));
      id in after.charters && after.charters[id] == book.charters[id]
  {
    hide Latest, VersionsOf;
  }

  lemma InvNumbers(book: Book)
    requires Inv(book)
    ensures Numbered(book)
  {
  }

  lemma DiscardLeavesOthers(book: Book, agent: nat, id: nat)
    requires Numbered(book) && id in book.charters && book.charters[id].agent != agent
    ensures
      var after := Apply(book, DoDiscard(agent));
      id in after.charters && after.charters[id] == book.charters[id]
  {
    if agent in book.states && CharterAtHandover(book, agent).Discarded? {
      DiscardedAreAll(book, agent);
    }
  }

  /** A draft stays as it was committed, but for the strikes honoured since. */
  lemma {:induction false} DraftStands(book: Book, steps: seq<Step>, id: nat)
    requires Inv(book) && id in book.charters && !book.charters[id].approved
    requires forall step <- steps :: LeavesDraft(step, id, book.charters[id].agent)
    ensures
      var after := Run(book, steps);
      Inv(after) && id in after.charters && after.charters[id] == DraftAfter(book.charters[id], steps, id)
  {
    hide Inv, Apply;
    var draft := book.charters[id];
    if steps == [] {
      assert StrikesOf(steps, id, draft.body.struck) == draft.body.struck;
    } else {
      var front, last := steps[..|steps| - 1], steps[|steps| - 1];
      assert last in steps;
      DraftStands(book, front, id);
      StepKeepsInv(Run(book, front), last);
      InvNumbers(Run(book, front));
      StepLeavesDraft(Run(book, front), last, id);
      assert StrikesOf(steps, id, draft.body.struck) == Run(book, steps).charters[id].body.struck;
    }
  }

  // ---------------------------------------------------------------- what is approved

  lemma {:induction false} ApprovedFromThenOn(book: Book, later: seq<Step>, id: nat)
    requires Inv(book) && id in book.charters && book.charters[id].approved
    ensures
      var after := Run(book, later);
      Inv(after) && id in after.charters && after.charters[id] == book.charters[id]
  {
    if later != [] {
      ApprovedFromThenOn(book, later[..|later| - 1], id);
      StepKeepsInv(Run(book, later[..|later| - 1]), later[|later| - 1]);
    }
  }

  /** Some constraint stands struck. */
  predicate AnyStands(struck: seq<bool>) {
    exists i :: 0 <= i < |struck| && struck[i]
  }

  lemma NothingStruck(struck: seq<bool>)
    requires !AnyStands(struck)
    ensures struck == seq(|struck|, _ => false)
  {
  }

  /** A book with one row of it approved with some body, its employee put to work, and the approval told. */
  ghost predicate ApprovedWith(book: Book, after: Book, id: nat, body: Body)
    requires id in book.charters
  {
    && after.charters == book.charters[id := book.charters[id].(approved := true, body := body)]
    && after.next == book.next && after.events == book.events + [Approved(id)]
    && after.states == book.states[book.charters[id].agent := Active]
  }

  lemma CommitWrites(book: Book, agent: nat, version: Version, body: Body)
    requires Inv(book) && agent in book.states
    ensures
      var id, committed := book.next, Apply(book, DoCommit(agent, version, body));
      && Inv(committed)
      && committed == Book(
           book.charters[id := Charter(agent, version, body, false, None)], id + 1,
           book.states[agent := CharterPending], book.events + [Drafted(id, version)])
  {
    StepKeepsInv(book, DoCommit(agent, version, body));
  }

  /**
   * An approval of a draft with a strike that cannot be honoured changes nothing; any other leaves it approved, with
   * the struck clauses taken out when a constraint stands struck and with its own words when none does.
   */
  lemma ApproveWrites(book: Book, id: nat, strikes: Strikes)
    requires id in book.charters && !book.charters[id].approved
    ensures
      var body, after := book.charters[id].body, Apply(book, DoApprove(id, strikes));
      if AnyStands(body.struck) && strikes.StrikeRefused? then after == book
      else
        var inForce :=
          if AnyStands(body.struck) then strikes.body else Body(body.words, seq(|body.struck|, _ => false));
        ApprovedWith(book, after, id, inForce)
  {
    var body := book.charters[id].body;
    assert AnyStands(body.struck) <==> AnyStruck(body);
    if !AnyStands(body.struck) { NothingStruck(body.struck); }
  }

  /**
   * From a commit to its approval and on. The committed row is an unapproved draft that supersedes nothing, its
   * employee pending and the draft told of. Whatever happens then but an approval, a send-back or a handover, approving
   * it with a strike that cannot be honoured changes nothing; else it is approved with the struck clauses taken out
   * when a constraint stands struck, and with its words as drafted when none does. Every later moment finds it so.
   */
  lemma CommittedThenApproved(
      book: Book, agent: nat, version: Version, body: Body, steps: seq<Step>, strikes: Strikes, later: seq<Step>)
    requires Inv(book) && agent in book.states
    requires forall step <- steps :: LeavesDraft(step, book.next, agent)
    ensures
      var id, committed := book.next, Apply(book, DoCommit(agent, version, body));
      var pending := Run(committed, steps);
      var approved := Apply(pending, DoApprove(id, strikes));
      var struck := AnyStands(StrikesOf(steps, id, body.struck));
      && committed == Book(
           book.charters[id := Charter(agent, version, body, false, None)], id + 1,
           book.states[agent := CharterPending], book.events + [Drafted(id, version)])
      && id in pending.charters
      && (struck && strikes.StrikeRefused? ==> approved == pending)
      && (!(struck && strikes.StrikeRefused?) ==>
            var inForce := if struck then strikes.body else Body(body.words, seq(|body.struck|, _ => false));
            && ApprovedWith(pending, approved, id, inForce)
            && id in Run(approved, later).charters
            && Run(approved, later).charters[id] == Charter(agent, version, inForce, true, None))
  {
    var id, committed := book.next, Apply(book, DoCommit(agent, version, body));
    CommitWrites(book, agent, version, body);
    DraftStands(committed, steps, id);
    hide Inv, Apply, Run, StrikesOf, AnyStands, LeavesDraft;
    var pending := Run(committed, steps);
    var struck := StrikesOf(steps, id, body.struck);
    assert pending.charters[id] == Charter(agent, version, body.(struck := struck), false, None);
    assert |struck| == |body.struck| by { SameLength(steps, id, body.struck); }
    ApproveWrites(pending, id, strikes);
    if !(AnyStands(struck) && strikes.StrikeRefused?) {
      StepKeepsInv(pending, DoApprove(id, strikes));
      ApprovedFromThenOn(Apply(pending, DoApprove(id, strikes)), later, id);
    }
  }

  lemma SameLength(steps: seq<Step>, id: nat, struck: seq<bool>)
    ensures |StrikesOf(steps, id, struck)| == |struck|
  {
  }

  /** The newest version of an employee. */
  ghost predicate IsNewest(book: Book, agent: nat, id: nat) {
    && id in book.charters && book.charters[id].agent == agent
    && forall other <- book.charters | book.charters[other].agent == agent :: other <= id
  }

  lemma NewestIsLatest(book: Book, agent: nat, id: nat)
    requires Numbered(book)
    ensures Latest(book, agent) == Some(id) <==> IsNewest(book, agent, id)
  {
  }

  lemma AmendWrites(book: Book, agent: nat, change: Change, p: nat)
    requires Inv(book) && IsNewest(book, agent, p)
    ensures p in book.charters && p != book.next
    ensures
      var before, outcome := book.charters[p], Amend(book, agent, change);
      && (outcome.Ok? ==> Apply(book, DoAmend(agent, change)) == outcome.value)
      && (outcome.Ok? <==> before.approved && before.version.Dotted? && change.Changed?)
      && (outcome.Ok? ==>
            var version := Dotted(before.version.major, before.version.minor + 1);
            outcome.value == Book(
              book.charters[book.next := Charter(agent, version, change.body, true, Some(p))], book.next + 1,
              book.states, book.events + [Amended(book.next, p, version, before.version)]))
  {
    NewestIsLatest(book, agent, p);
  }

  /**
   * An amendment is accepted exactly over an approved newest version that can be counted up, when it changes something;
   * the new version carries the amended body, counts one up, supersedes the one beneath and leaves it as it was, and
   * stands so at every later moment.
   */
  lemma AmendedThenOn(book: Book, agent: nat, change: Change, p: nat, later: seq<Step>)
    requires Inv(book) && IsNewest(book, agent, p)
    ensures
      var before, outcome := book.charters[p], Amend(book, agent, change);
      && (outcome.Ok? <==> before.approved && before.version.Dotted? && change.Changed?)
      && (outcome.Ok? ==>
            var version := Dotted(before.version.major, before.version.minor + 1);
            var amended := Charter(agent, version, change.body, true, Some(p));
            && outcome.value == Book(
                 book.charters[book.next := amended], book.next + 1, book.states,
                 book.events + [Amended(book.next, p, version, before.version)])
            && var after := Run(outcome.value, later).charters;
            && book.next in after && after[book.next] == amended && p in after && after[p] == before)
  {
    hide Inv, Apply, Run, Amend, IsNewest;
    AmendWrites(book, agent, change, p);
    var outcome := Amend(book, agent, change);
    if outcome.Ok? {
      StepKeepsInv(book, DoAmend(agent, change));
      ApprovedFromThenOn(outcome.value, later, book.next);
      ApprovedFromThenOn(outcome.value, later, p);
    }
  }

  lemma OthersApproved(book: Book, agent: nat, id: nat)
    requires id in book.charters && !book.charters[id].approved
    ensures AnyApproved(book.charters - {id}, agent) <==> AnyApproved(book.charters, agent)
  {
    if AnyApproved(book.charters, agent) {
      var other :| other in book.charters && book.charters[other].agent == agent && book.charters[other].approved;
      assert other in book.charters - {id};
    }
  }

  lemma AllButOne(charters: map<nat, Charter>, id: nat)
    ensures charters - {id} == map other <- charters | other != id :: charters[other]
  {
  }

  /**
   * A draft is sent back exactly when it is its employee's newest version, unapproved, and the note is within its
   * bound. It alone is deleted.
   */
  lemma SentBackExactlyWhen(book: Book, id: nat, note: nat, transcript: bool)
    requires Inv(book)
    ensures
      var outcome := RequestChanges(book, id, note, transcript);
      && (outcome.Ok? <==>
            && id in book.charters && !book.charters[id].approved
            && IsNewest(book, book.charters[id].agent, id) && note <= CHANGE_REQUEST_MAX_CHARS)
      && (outcome.Ok? ==>
            var agent, redrafting := book.charters[id].agent, note > 0 && transcript;
            outcome.value == Book(
              map other <- book.charters | other != id :: book.charters[other], book.next,
              book.states[agent := StateBack(book, agent, redrafting)], book.events + [SentBack(id, redrafting)]))
  {
    hide IsNewest, Latest, VersionsOf, AnyApproved;
    if id in book.charters {
      var agent := book.charters[id].agent;
      NewestIsLatest(book, agent, id);
      var outcome := RequestChanges(book, id, note, transcript);
      if outcome.Ok? {
        AllButOne(book.charters, id);
        OthersApproved(book, agent, id);
      }
    }
  }

  // ---------------------------------------------------------------- each approval is told once

  /** The record tells of each draft's approval once, and of no other row's. */
  ghost predicate ToldOnce(book: Book) {
    forall id: nat :: multiset(book.events)[Approved(id)] == Approvals(book, id)
  }

  function Approvals(book: Book, id: nat): nat {
    if id in book.charters && book.charters[id].approved && book.charters[id].supersedes.None? then 1 else 0
  }

  lemma NextToldOnce(book: Book, event: Event, after: Book)
    requires ToldOnce(book) && after.events == book.events + [event]
    requires forall id: nat ::
        Approvals(after, id) == Approvals(book, id) + if event == Approved(id) then 1 else 0
    ensures ToldOnce(after)
  {
    assert multiset(after.events) == multiset(book.events) + multiset{event};
  }

  lemma ApproveToldOnce(book: Book, id: nat, strikes: Strikes)
    requires Inv(book) && ToldOnce(book)
    ensures ToldOnce(Apply(book, DoApprove(id, strikes)))
  {
    var after := Apply(book, DoApprove(id, strikes));
    if after != book {
      assert Linked(book.charters, id);
      NextToldOnce(book, Approved(id), after);
    }
  }

  lemma CommitToldOnce(book: Book, agent: nat, version: Version, body: Body)
    requires Inv(book) && ToldOnce(book)
    ensures ToldOnce(Apply(book, DoCommit(agent, version, body)))
  {
    if agent in book.states {
      NextToldOnce(book, Drafted(book.next, version), Apply(book, DoCommit(agent, version, body)));
    }
  }

  lemma AmendToldOnce(book: Book, agent: nat, change: Change)
    requires Inv(book) && ToldOnce(book)
    ensures ToldOnce(Apply(book, DoAmend(agent, change)))
  {
    hide Amend, Inv, Apply, Latest, IsNewest, ToldOnce;
    var outcome := Amend(book, agent, change);
    if outcome.Ok? {
      AmendsTheLatest(book, agent, change);
      var p := Latest(book, agent).value;
      AmendWrites(book, agent, change, p);
      NextIsNew(book);
      NextToldOnce(book, outcome.value.events[|book.events|], outcome.value);
    } else {
      RefusedAmend(book, agent, change);
    }
  }

  lemma AmendsTheLatest(book: Book, agent: nat, change: Change)
    requires Inv(book) && Amend(book, agent, change).Ok?
    ensures Latest(book, agent).Some? && IsNewest(book, agent, Latest(book, agent).value)
  {
    NewestIsLatest(book, agent, Latest(book, agent).value);
  }

  lemma RefusedAmend(book: Book, agent: nat, change: Change)
    requires Amend(book, agent, change).Err?
    ensures Apply(book, DoAmend(agent, change)) == book
  {
  }

  lemma NextIsNew(book: Book)
    requires Inv(book)
    ensures book.next !in book.charters
  {
  }

  lemma BackToldOnce(book: Book, id: nat, note: nat, transcript: bool)
    requires Inv(book) && ToldOnce(book)
    ensures ToldOnce(Apply(book, DoRequestChanges(id, note, transcript)))
  {
    hide ToldOnce, Inv, IsNewest, RequestChanges;
    SentBackExactlyWhen(book, id, note, transcript);
    if RequestChanges(book, id, note, transcript).Ok? {
      NextToldOnce(
        book, SentBack(id, note > 0 && transcript), RequestChanges(book, id, note, transcript).value);
    }
  }

  lemma StepToldOnce(book: Book, step: Step)
    requires Inv(book) && ToldOnce(book)
    ensures ToldOnce(Apply(book, step))
  {
    match step
    case DoApprove(id, strikes) => ApproveToldOnce(book, id, strikes);
    case DoCommit(agent, version, body) => CommitToldOnce(book, agent, version, body);
    case DoAmend(agent, change) => AmendToldOnce(book, agent, change);
    case DoRequestChanges(id, note, transcript) => BackToldOnce(book, id, note, transcript);
    case DoDiscard(agent) => DiscardToldOnce(book, agent);
    case _ => QuietToldOnce(book, step);
  }

  lemma QuietToldOnce(book: Book, step: Step)
    requires ToldOnce(book) && (step.DoHire? || step.DoBegin? || step.DoStrike?)
    ensures ToldOnce(Apply(book, step))
  {
    assert forall id: nat :: Approvals(Apply(book, step), id) == Approvals(book, id);
  }

  lemma DiscardToldOnce(book: Book, agent: nat)
    requires Inv(book) && ToldOnce(book)
    ensures ToldOnce(Apply(book, DoDiscard(agent)))
  {
    var after := Apply(book, DoDiscard(agent));
    if agent in book.states && CharterAtHandover(book, agent).Discarded? {
      DiscardedAreAll(book, agent);
    }
    assert forall id: nat :: Approvals(after, id) == Approvals(book, id);
  }

  /** Over every run from an empty table the record tells of each draft approved exactly once. */
  lemma {:induction false} ApprovalsAreToldOnce(steps: seq<Step>)
    ensures Inv(Run(EMPTY, steps)) && ToldOnce(Run(EMPTY, steps))
  {
    if steps != [] {
      ApprovalsAreToldOnce(steps[..|steps| - 1]);
      StepKeepsInv(Run(EMPTY, steps[..|steps| - 1]), steps[|steps| - 1]);
      StepToldOnce(Run(EMPTY, steps[..|steps| - 1]), steps[|steps| - 1]);
    }
  }
}
