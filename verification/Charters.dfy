/** Charter versions: drafted, struck, approved, amended, sent back, discarded at a handover (convex/charters.ts). */
module Charters {
  import opened Prelude

  /** A dotted version, or text no amendment can follow. */
  datatype Version = Dotted(major: nat, minor: nat) | Plain(text: string)

  function NextVersion(version: Version): Option<Version> {
    if version.Dotted? then Some(Dotted(version.major, version.minor + 1)) else None
  }

  /** A body: its wording, a token, and which of its constraints are struck. */
  datatype Body = Body(words: nat, struck: seq<bool>)

  datatype Charter = Charter(agent: nat, version: Version, body: Body, approved: bool, supersedes: Option<nat>)

  datatype State = Deployed | DayOne | CharterPending | Active

  datatype Event =
    | Drafted(id: nat, version: Version)
    | Approved(id: nat)
    | Amended(id: nat, previous: nat, version: Version, previousVersion: Version)
    | SentBack(id: nat, redrafting: bool)

  /** The table by id, ids in the order the rows were inserted, the employees' states and the events. */
  datatype Book = Book(charters: map<nat, Charter>, next: nat, states: map<nat, State>, events: seq<Event>)

  const DRAFT_DISCARD_LIMIT: nat := 100
  const VERSIONS_WALKED: nat := 500
  const CHANGE_REQUEST_MAX_CHARS: nat := 2000

  // ---------------------------------------------------------------- reads

  /** An employee's versions below an id, oldest first. */
  function VersionsOf(charters: map<nat, Charter>, agent: nat, n: nat): (r: seq<nat>)
    ensures forall id: nat :: id in r <==> id < n && id in charters && charters[id].agent == agent
    ensures forall i, j :: 0 <= i < j < |r| ==> r[i] < r[j]
  {
    if n == 0 then []
    else
      var before := VersionsOf(charters, agent, n - 1);
      assert forall i :: 0 <= i < |before| ==> before[i] in before;
      if n - 1 in charters && charters[n - 1].agent == agent then before + [n - 1] else before
  }

  function Latest(book: Book, agent: nat): (r: Option<nat>)
    ensures r.Some? ==> r.value in book.charters && book.charters[r.value].agent == agent
    ensures forall id <- book.charters | id < book.next && book.charters[id].agent == agent :: r.Some? && id <= r.value
  {
    var versions := VersionsOf(book.charters, agent, book.next);
    if versions == [] then None
    else
      assert versions[|versions| - 1] in versions;
      Some(versions[|versions| - 1])
  }

  predicate AnyApproved(charters: map<nat, Charter>, agent: nat) {
    exists id <- charters :: charters[id].agent == agent && charters[id].approved
  }

  // ---------------------------------------------------------------- the transactions

  function Commit(book: Book, agent: nat, version: Version, body: Body): Result<Book, string> {
    if agent !in book.states then Err("no such employee")
    else
      Ok(Book(
           book.charters[book.next := Charter(agent, version, body, false, None)], book.next + 1,
           book.states[agent := CharterPending], book.events + [Drafted(book.next, version)]))
  }

  /** What previewing a strike answers: approval would refuse it, it changes no clause, or it changes some. */
  datatype Preview = PreviewRefused | ChangesNoClause | ChangesClauses

  /** A strike approval could not honour, or that would change nothing, is refused before it is flagged. */
  predicate StrikeStands(body: Body, index: int, struck: bool, preview: Preview)
    requires 0 <= index < |body.struck|
  {
    struck && !body.struck[index] ==> preview.ChangesClauses?
  }

  /** Strike or restore one constraint of a draft; a refused one leaves the draft as it was. */
  function Strike(book: Book, id: nat, index: int, struck: bool, preview: Preview): Result<Book, string> {
    if id !in book.charters then Err("no such charter")
    else
      var charter := book.charters[id];
      if charter.approved then Err("the charter is approved")
      else if !(0 <= index < |charter.body.struck|) then Err("no such constraint")
      else if !StrikeStands(charter.body, index, struck, preview) then Ok(book)
      else
        var body := charter.body.(struck := charter.body.struck[index := struck]);
        Ok(book.(charters := book.charters[id := charter.(body := body)]))
  }

  /** What the strikes on a draft come to at approval: a refusal, or the body without the struck clauses. */
  datatype Strikes = StrikeRefused | Applied(body: Body)

  predicate AnyStruck(body: Body) {
    exists i :: 0 <= i < |body.struck| && body.struck[i]
  }

  function Approve(book: Book, id: nat, strikes: Strikes): Result<Book, string> {
    if id !in book.charters then Err("no such charter")
    else
      var charter := book.charters[id];
      if charter.approved || (AnyStruck(charter.body) && strikes.StrikeRefused?) then Ok(book)
      else
        var body := if AnyStruck(charter.body) then strikes.body else charter.body;
        var approved := charter.(approved := true, body := body);
        Ok(book.(
           charters := book.charters[id := approved], states := book.states[charter.agent := Active],
           events := book.events + [Approved(id)]))
  }

  /** The changes to the latest body: none that apply, none that change it, or the changed body. */
  datatype Change = ChangeRefused | ChangesNothing | Changed(body: Body)

  function Amend(book: Book, agent: nat, change: Change): Result<Book, string> {
    var previous := Latest(book, agent);
    if previous.None? then Err("the agent has no charter to amend")
    else
      var before := book.charters[previous.value];
      if !before.approved then Err("the charter is not approved yet")
      else if NextVersion(before.version).None? then Err("cannot bump charter version")
      else if !change.Changed? then Err("the amendment changes nothing")
      else
        var version := NextVersion(before.version).value;
        Ok(book.(
           charters := book.charters[book.next := Charter(agent, version, change.body, true, previous)],
           next := book.next + 1,
           events := book.events + [Amended(book.next, previous.value, version, before.version)]))
  }

  /** `note` is the length of the note, `transcript` whether the draft's one-to-one left one. */
  function RequestChanges(book: Book, id: nat, note: nat, transcript: bool): Result<Book, string> {
    if id !in book.charters then Err("no such charter")
    else
      var charter := book.charters[id];
      if charter.approved then Err("an approved charter cannot be sent back")
      else if Latest(book, charter.agent) != Some(id) then Err("only the latest draft can be sent back")
      else if note > CHANGE_REQUEST_MAX_CHARS then Err("the note is too long")
      else
        var redrafting := note > 0 && transcript;
        var left := book.charters - {id};
        var back := if AnyApproved(left, charter.agent) then Active else if redrafting then DayOne else Deployed;
        Ok(book.(
           charters := left, events := book.events + [SentBack(id, redrafting)],
           states := book.states[charter.agent := back]))
  }

  datatype AtHandover = Carried | Discarded(drafts: seq<nat>) | Refused

  function CharterAtHandover(book: Book, agent: nat): AtHandover {
    if agent in book.states && book.states[agent].Active? then Carried
    else
      var versions := Take(VersionsOf(book.charters, agent, book.next), DRAFT_DISCARD_LIMIT + 1);
      if exists id <- versions :: id in book.charters && book.charters[id].approved then Carried
      else if |versions| > DRAFT_DISCARD_LIMIT then Refused
      else Discarded(versions)
  }

  function Ids(drafts: seq<nat>): set<nat> {
    set id <- drafts
  }

  function DiscardUnapproved(book: Book, agent: nat): Result<Book, string> {
    if agent !in book.states then Err("no such employee")
    else
      match CharterAtHandover(book, agent)
      case Carried => Ok(book)
      case Refused => Err("more drafts than one handover can discard")
      case Discarded(drafts) =>
        Ok(book.(charters := book.charters - Ids(drafts), states := book.states[agent := Deployed]))
  }

  // ---------------------------------------------------------------- one step, and every run

  datatype Step =
    | DoHire(agent: nat)
    | DoBegin(agent: nat)
    | DoCommit(agent: nat, version: Version, body: Body)
    | DoStrike(id: nat, index: int, struck: bool, preview: Preview)
    | DoApprove(id: nat, strikes: Strikes)
    | DoAmend(agent: nat, change: Change)
    | DoRequestChanges(id: nat, note: nat, transcript: bool)
    | DoDiscard(agent: nat)

  function Outcome(book: Book, step: Step): Result<Book, string> {
    match step
    case DoHire(agent) =>
      if agent in book.states then Err("hired already") else Ok(book.(states := book.states[agent := Deployed]))
    case DoBegin(agent) =>
      if agent !in book.states then Err("no such employee") else Ok(book.(states := book.states[agent := DayOne]))
    case DoCommit(agent, version, body) => Commit(book, agent, version, body)
    case DoStrike(id, index, struck, preview) => Strike(book, id, index, struck, preview)
    case DoApprove(id, strikes) => Approve(book, id, strikes)
    case DoAmend(agent, change) => Amend(book, agent, change)
    case DoRequestChanges(id, note, transcript) => RequestChanges(book, id, note, transcript)
    case DoDiscard(agent) => DiscardUnapproved(book, agent)
  }

  /** A refused step is rolled back. */
  function Apply(book: Book, step: Step): Book {
    match Outcome(book, step)
    case Ok(after) => after
    case Err(_) => book
  }

  function Run(book: Book, steps: seq<Step>): Book {
    if steps == [] then book else Apply(Run(book, steps[..|steps| - 1]), steps[|steps| - 1])
  }

  const EMPTY := Book(map[], 0, map[], [])

  // ---------------------------------------------------------------- what every step keeps

  /**
   * What a row supersedes is an earlier approved version of the same employee, one step older, and the row was approved
   * as it was written.
   */
  predicate Linked(charters: map<nat, Charter>, id: nat)
    requires id in charters
  {
    var charter := charters[id];
    charter.supersedes.Some? ==>
      var p := charter.supersedes.value;
      && p < id && p in charters && charters[p].agent == charter.agent && charters[p].approved && charter.approved
      && NextVersion(charters[p].version) == Some(charter.version)
  }

  /**
   * The event that announced a row: a draft's, when it supersedes nothing, or else the amendment's that names what it
   * supersedes.
   */
  predicate Announces(event: Event, charters: map<nat, Charter>, id: nat)
    requires id in charters
  {
    match event
    case Drafted(drafted, version) => drafted == id && charters[id].supersedes.None? && version == charters[id].version
    case Amended(amended, previous, version, _) =>
      amended == id && charters[id].supersedes == Some(previous) && version == charters[id].version
    case _ => false
  }

  predicate Writes(event: Event) {
    event.Drafted? || event.Amended?
  }

  ghost predicate Logged(book: Book, id: nat)
    requires id in book.charters
  {
    && (exists e <- book.events :: Announces(e, book.charters, id))
    && forall e <- book.events | Writes(e) && e.id == id :: Announces(e, book.charters, id)
  }

  ghost predicate Unforked(charters: map<nat, Charter>) {
    forall a <- charters, b <- charters | a != b && charters[a].supersedes.Some? ::
      charters[a].supersedes != charters[b].supersedes
  }

  ghost predicate Numbered(book: Book) {
    && (forall id <- book.charters :: id < book.next && book.charters[id].agent in book.states)
    && forall e <- book.events :: e.id < book.next
  }

  ghost predicate ActiveApproved(book: Book) {
    forall agent <- book.states | book.states[agent].Active? :: AnyApproved(book.charters, agent)
  }

  ghost predicate Inv(book: Book) {
    && Numbered(book)
    && (forall id <- book.charters :: Linked(book.charters, id))
    && Unforked(book.charters)
    && (forall id <- book.charters :: Logged(book, id))
    && ActiveApproved(book)
  }

  /** What no step takes back: an approved version, with its body, version and what it supersedes. */
  ghost predicate ApprovedStand(book: Book, after: Book) {
    forall id <- book.charters | book.charters[id].approved ::
      id in after.charters && after.charters[id] == book.charters[id]
  }

  // ---------------------------------------------------------------- a step that writes no version

  predicate SameOrigin(a: Charter, b: Charter) {
    a.agent == b.agent && a.version == b.version && a.supersedes == b.supersedes
  }

  /** Rows deleted, approved or struck, approved ones left alone, and events that announce no version. */
  ghost predicate Trims(book: Book, after: Book) {
    && after.next == book.next && after.states.Keys >= book.states.Keys && ApprovedStand(book, after)
    && (forall id <- after.charters :: id in book.charters && SameOrigin(book.charters[id], after.charters[id]))
    && book.events <= after.events
    && forall e <- after.events :: e in book.events || (!Writes(e) && e.id < book.next)
  }

  lemma TrimKeepsInv(book: Book, after: Book)
    requires Inv(book) && Trims(book, after) && ActiveApproved(after)
    ensures Inv(after)
  {
    forall id | id in after.charters
      ensures Linked(after.charters, id)
    {
      assert Linked(book.charters, id);
    }
    forall id | id in after.charters
      ensures Logged(after, id)
    {
      TrimKeepsLog(book, after, id);
    }
  }

  lemma TrimKeepsLog(book: Book, after: Book, id: nat)
    requires Trims(book, after) && id in after.charters && Logged(book, id)
    ensures Logged(after, id)
  {
    var e :| e in book.events && Announces(e, book.charters, id);
    assert e in after.events && Announces(e, after.charters, id);
    forall e | e in after.events && Writes(e) && e.id == id
      ensures Announces(e, after.charters, id)
    {
      assert Announces(e, book.charters, id);
    }
  }

  lemma ApprovedStandActive(book: Book, after: Book, agent: nat)
    requires ApprovedStand(book, after) && AnyApproved(book.charters, agent)
    ensures AnyApproved(after.charters, agent)
  {
    var id :| id in book.charters && book.charters[id].agent == agent && book.charters[id].approved;
    assert after.charters[id] == book.charters[id];
  }

  // ---------------------------------------------------------------- a step that writes one

  /** A row on top of all others, announced, superseding the latest or nothing. */
  ghost predicate Adds(book: Book, after: Book, charter: Charter, event: Event) {
    && after.charters == book.charters[book.next := charter] && after.next == book.next + 1
    && after.events == book.events + [event] && event.id == book.next && Announces(event, after.charters, book.next)
    && Linked(after.charters, book.next)
    && (charter.supersedes.Some? ==> Latest(book, charter.agent) == charter.supersedes)
    && after.states.Keys >= book.states.Keys && charter.agent in after.states
    && forall agent <- after.states | after.states[agent].Active? :: agent in book.states && book.states[agent].Active?
  }

  lemma AddKeepsLinks(book: Book, after: Book, charter: Charter, event: Event)
    requires Inv(book) && Adds(book, after, charter, event)
    ensures (forall id <- after.charters :: Linked(after.charters, id)) && Unforked(after.charters)
  {
    forall id | id in book.charters
      ensures Linked(after.charters, id)
      ensures (charter.supersedes.Some? ==> book.charters[id].supersedes != charter.supersedes)
    {
      assert Linked(book.charters, id);
    }
  }

  lemma AddKeepsLog(book: Book, after: Book, charter: Charter, event: Event, id: nat)
    requires Numbered(book) && Adds(book, after, charter, event) && id in after.charters
    requires id in book.charters ==> Logged(book, id)
    ensures Logged(after, id)
  {
    if id in book.charters {
      var e :| e in book.events && Announces(e, book.charters, id);
      assert e in after.events && Announces(e, after.charters, id);
      forall e | e in after.events && Writes(e) && e.id == id
        ensures Announces(e, after.charters, id)
      {
        assert e in book.events && Announces(e, book.charters, id);
      }
    } else {
      assert event in after.events;
      assert forall e <- after.events | e.id == id :: e == event;
    }
  }

  lemma AddKeepsInv(book: Book, after: Book, charter: Charter, event: Event)
    requires Inv(book) && Adds(book, after, charter, event)
    ensures Inv(after) && ApprovedStand(book, after)
  {
    AddKeepsLinks(book, after, charter, event);
    forall id | id in after.charters
      ensures Logged(after, id)
    {
      AddKeepsLog(book, after, charter, event, id);
    }
    AddKeepsActive(book, after, charter, event);
  }

  lemma AddKeepsActive(book: Book, after: Book, charter: Charter, event: Event)
    requires Numbered(book) && ActiveApproved(book) && Adds(book, after, charter, event)
    ensures ApprovedStand(book, after) && ActiveApproved(after)
  {
    forall agent | agent in after.states && after.states[agent].Active?
      ensures AnyApproved(after.charters, agent)
    {
      ApprovedStandActive(book, after, agent);
    }
  }

  // ---------------------------------------------------------------- every step

  lemma CommitKeeps(book: Book, agent: nat, version: Version, body: Body)
    requires Inv(book)
    ensures var after := Apply(book, DoCommit(agent, version, body)); Inv(after) && ApprovedStand(book, after)
  {
    if agent in book.states {
      AddKeepsInv(book, Commit(book, agent, version, body).value, Charter(agent, version, body, false, None),
        Drafted(book.next, version));
    }
  }

  lemma AmendKeeps(book: Book, agent: nat, change: Change)
    requires Inv(book)
    ensures var after := Apply(book, DoAmend(agent, change)); Inv(after) && ApprovedStand(book, after)
  {
    var outcome := Amend(book, agent, change);
    if outcome.Ok? {
      var previous := Latest(book, agent).value;
      var before := book.charters[previous];
      var version := NextVersion(before.version).value;
      AddKeepsInv(
        book, outcome.value, Charter(agent, version, change.body, true, Some(previous)),
        Amended(book.next, previous, version, before.version));
    }
  }

  lemma RewriteTrims(book: Book, after: Book, id: nat)
    requires Numbered(book) && id in book.charters && !book.charters[id].approved
    requires after.charters.Keys == book.charters.Keys && SameOrigin(book.charters[id], after.charters[id])
    requires forall other <- book.charters | other != id :: after.charters[other] == book.charters[other]
    requires after.next == book.next && after.states.Keys >= book.states.Keys
    requires after.events == book.events || after.events == book.events + [Approved(id)]
    ensures Trims(book, after)
  {
  }

  /** A draft written over, and with its approval announced and its employee put to work. */
  lemma RewriteKeeps(book: Book, after: Book, id: nat)
    requires Inv(book) && id in book.charters && !book.charters[id].approved && id in after.charters
    requires
      after.charters == book.charters[id := after.charters[id]] && SameOrigin(book.charters[id], after.charters[id])
    requires after.next == book.next
    requires
      || (after.states == book.states && after.events == book.events)
      || (&& after.charters[id].approved && after.states == book.states[book.charters[id].agent := Active]
          && after.events == book.events + [Approved(id)])
    ensures Inv(after) && ApprovedStand(book, after)
  {
    RewriteTrims(book, after, id);
    forall agent | agent in after.states && after.states[agent].Active?
      ensures AnyApproved(after.charters, agent)
    {
      if after.states == book.states || agent != book.charters[id].agent {
        ApprovedStandActive(book, after, agent);
      }
    }
    TrimKeepsInv(book, after);
  }

  lemma StrikeKeeps(book: Book, id: nat, index: int, struck: bool, preview: Preview)
    requires Inv(book)
    ensures var after := Apply(book, DoStrike(id, index, struck, preview)); Inv(after) && ApprovedStand(book, after)
  {
    var after := Apply(book, DoStrike(id, index, struck, preview));
    if after != book {
      RewriteKeeps(book, after, id);
    }
  }

  lemma ApproveKeeps(book: Book, id: nat, strikes: Strikes)
    requires Inv(book)
    ensures var after := Apply(book, DoApprove(id, strikes)); Inv(after) && ApprovedStand(book, after)
  {
    var after := Apply(book, DoApprove(id, strikes));
    if after != book {
      RewriteKeeps(book, after, id);
    }
  }

  lemma RequestChangesTrims(book: Book, id: nat, note: nat, transcript: bool)
    requires Numbered(book) && RequestChanges(book, id, note, transcript).Ok?
    ensures Trims(book, RequestChanges(book, id, note, transcript).value)
  {
  }

  lemma RequestChangesKeeps(book: Book, id: nat, note: nat, transcript: bool)
    requires Inv(book)
    ensures var after := Apply(book, DoRequestChanges(id, note, transcript)); Inv(after) && ApprovedStand(book, after)
  {
    var after := Apply(book, DoRequestChanges(id, note, transcript));
    if RequestChanges(book, id, note, transcript).Ok? {
      RequestChangesTrims(book, id, note, transcript);
      forall agent | agent in after.states && after.states[agent].Active?
        ensures AnyApproved(after.charters, agent)
      {
        if agent != book.charters[id].agent {
          ApprovedStandActive(book, after, agent);
        }
      }
      TrimKeepsInv(book, after);
    }
  }

  /** The handover's discard finds every version when it deletes: its read is bounded, but a full read refuses. */
  lemma DiscardedAreAll(book: Book, agent: nat)
    requires Numbered(book) && CharterAtHandover(book, agent).Discarded?
    ensures forall id <- book.charters | book.charters[id].agent == agent ::
        id in CharterAtHandover(book, agent).drafts && !book.charters[id].approved
    ensures
      forall id <- CharterAtHandover(book, agent).drafts :: id in book.charters && book.charters[id].agent == agent
  {
    assert VersionsOf(book.charters, agent, book.next) == CharterAtHandover(book, agent).drafts;
  }

  lemma DiscardTrims(book: Book, agent: nat)
    requires Numbered(book) && agent in book.states && CharterAtHandover(book, agent).Discarded?
    ensures Trims(book, DiscardUnapproved(book, agent).value)
  {
    DiscardedAreAll(book, agent);
  }

  lemma DiscardKeeps(book: Book, agent: nat)
    requires Inv(book)
    ensures var after := Apply(book, DoDiscard(agent)); Inv(after) && ApprovedStand(book, after)
  {
    var after := Apply(book, DoDiscard(agent));
    if agent in book.states && CharterAtHandover(book, agent).Discarded? {
      DiscardTrims(book, agent);
      forall other | other in after.states && after.states[other].Active?
        ensures AnyApproved(after.charters, other)
      {
        ApprovedStandActive(book, after, other);
      }
      TrimKeepsInv(book, after);
    }
  }

  /** Every version but one employee's. */
  function OthersVersions(charters: map<nat, Charter>, agent: nat): map<nat, Charter> {
    map id <- charters | charters[id].agent != agent :: charters[id]
  }

  lemma DiscardLeavesTheRest(book: Book, agent: nat)
    requires Numbered(book) && agent in book.states && CharterAtHandover(book, agent).Discarded?
    ensures
      DiscardUnapproved(book, agent) == Ok(book.(
        charters := OthersVersions(book.charters, agent), states := book.states[agent := Deployed]))
  {
    DiscardedAreAll(book, agent);
    var drafts := CharterAtHandover(book, agent).drafts;
    assert DiscardUnapproved(book, agent) ==
      Ok(book.(charters := book.charters - Ids(drafts), states := book.states[agent := Deployed]));
    hide DiscardUnapproved, CharterAtHandover;
    assert book.charters - Ids(drafts) == OthersVersions(book.charters, agent);
  }

  /**
   * A handover carries a charter its manager approved, and no other: it discards every version of an employee that has
   * none approved and leaves it deployed, changes nothing of one that has, and refuses only past its bound of drafts.
   */
  lemma DiscardIsAllOrNothing(book: Book, agent: nat)
    requires Inv(book) && agent in book.states
    ensures
      var outcome := DiscardUnapproved(book, agent);
      && (outcome.Err? ==> |VersionsOf(book.charters, agent, book.next)| > DRAFT_DISCARD_LIMIT)
      && (|VersionsOf(book.charters, agent, book.next)| <= DRAFT_DISCARD_LIMIT ==> outcome.Ok?)
      && (outcome.Ok? && AnyApproved(book.charters, agent) ==> outcome.value == book)
      && (outcome.Ok? && !AnyApproved(book.charters, agent) ==>
            && outcome.value == book.(
                 charters := OthersVersions(book.charters, agent), states := book.states[agent := Deployed]))
  {
    if CharterAtHandover(book, agent).Discarded? {
      DiscardedAreAll(book, agent);
      DiscardLeavesTheRest(book, agent);
    }
    hide DiscardUnapproved;
  }

  lemma HireOrBeginKeeps(book: Book, step: Step)
    requires Inv(book) && (step.DoHire? || step.DoBegin?)
    ensures var after := Apply(book, step); Inv(after) && ApprovedStand(book, after)
  {
    var after := Apply(book, step);
    assert Trims(book, after);
    assert ActiveApproved(after);
    TrimKeepsInv(book, after);
  }

  /** Every step keeps the history, and takes no approved version back. */
  lemma StepKeepsInv(book: Book, step: Step)
    requires Inv(book)
    ensures Inv(Apply(book, step)) && ApprovedStand(book, Apply(book, step))
  {
    match step
    case DoHire(_) => HireOrBeginKeeps(book, step);
    case DoBegin(_) => HireOrBeginKeeps(book, step);
    case DoCommit(agent, version, body) => CommitKeeps(book, agent, version, body);
    case DoStrike(id, index, struck, preview) => StrikeKeeps(book, id, index, struck, preview);
    case DoApprove(id, strikes) => ApproveKeeps(book, id, strikes);
    case DoAmend(agent, change) => AmendKeeps(book, agent, change);
    case DoRequestChanges(id, note, transcript) => RequestChangesKeeps(book, id, note, transcript);
    case DoDiscard(agent) => DiscardKeeps(book, agent);
  }

  /**
   * Over every run from an empty table: an approved version is never deleted or rewritten, what a version supersedes is
   * an existing earlier approved one of the same employee, and none is superseded twice.
   */
  lemma {:induction false} HistoryIsUnforked(steps: seq<Step>, n: nat)
    requires n <= |steps|
    ensures Inv(Run(EMPTY, steps))
    ensures ApprovedStand(Run(EMPTY, steps[..n]), Run(EMPTY, steps))
  {
    if n == |steps| {
      assert steps[..n] == steps;
      RunKeepsInv(steps);
    } else {
      HistoryIsUnforked(steps[..|steps| - 1], n);
      assert steps[..|steps| - 1][..n] == steps[..n];
      StepKeepsInv(Run(EMPTY, steps[..|steps| - 1]), steps[|steps| - 1]);
    }
  }

  lemma {:induction false} RunKeepsInv(steps: seq<Step>)
    ensures Inv(Run(EMPTY, steps))
  {
    if steps != [] {
      RunKeepsInv(steps[..|steps| - 1]);
      StepKeepsInv(Run(EMPTY, steps[..|steps| - 1]), steps[|steps| - 1]);
    }
  }

  /**
   * A strike is reversible while the charter is a draft: struck and restored, the whole book is as it was; a refused
   * strike changed nothing; and restoring is never refused.
   */
  lemma RestoringUndoesTheStrike(book: Book, id: nat, index: int, preview: Preview, restored: Preview)
    requires Strike(book, id, index, true, preview).Ok? && !book.charters[id].body.struck[index]
    ensures
      var after := Strike(book, id, index, true, preview).value;
      && (after == book <==> !preview.ChangesClauses?)
      && Strike(after, id, index, false, restored) == Ok(book)
  {
    var after := Strike(book, id, index, true, preview).value;
    if preview.ChangesClauses? {
      assert after.charters[id].body.struck[index];
      assert after.charters[id].body.struck[index := false] == book.charters[id].body.struck;
      assert after.charters[id := book.charters[id]] == book.charters;
    } else {
      assert book.charters[id].body.struck[index := false] == book.charters[id].body.struck;
      assert book.charters[id := book.charters[id]] == book.charters;
    }
  }

  /** The state sending a draft back leaves its employee in. */
  function StateBack(book: Book, agent: nat, redrafting: bool): State {
    if AnyApproved(book.charters, agent) then Active else if redrafting then DayOne else Deployed
  }

  lemma SentBackExactly(book: Book, agent: nat, version: Version, body: Body, note: nat, transcript: bool)
    requires Numbered(book) && agent in book.states && note <= CHANGE_REQUEST_MAX_CHARS
    ensures
      var redrafting := note > 0 && transcript;
      var drafted := Commit(book, agent, version, body).value;
      RequestChanges(drafted, book.next, note, transcript) ==
        Ok(Book(book.charters, book.next + 1, book.states[agent := StateBack(book, agent, redrafting)],
                drafted.events + [SentBack(book.next, redrafting)]))
  {
    var drafted := Commit(book, agent, version, body).value;
    LatestIsTheNewest(drafted, agent);
    assert drafted.charters - {book.next} == book.charters;
    var back := StateBack(book, agent, note > 0 && transcript);
    assert drafted.states[agent := back] == book.states[agent := back];
  }

  /**
   * Sending a fresh draft back undoes it: the versions are what they were, an approved charter beneath it is in force
   * again, and with none the employee is back before its one-to-one, or in it while it redrafts.
   */
  lemma SendingBackUndoesTheDraft(book: Book, agent: nat, version: Version, body: Body, note: nat, transcript: bool)
    requires Inv(book) && agent in book.states && note <= CHANGE_REQUEST_MAX_CHARS
    ensures Commit(book, agent, version, body).Ok?
    ensures RequestChanges(Commit(book, agent, version, body).value, book.next, note, transcript).Ok?
    ensures
      var after := RequestChanges(Commit(book, agent, version, body).value, book.next, note, transcript).value;
      && after.charters == book.charters && Latest(after, agent) == Latest(book, agent)
      && after.states == book.states[agent := StateBack(book, agent, note > 0 && transcript)]
  {
    SentBackExactly(book, agent, version, body, note, transcript);
    VersionsBelow(book.charters, agent, book.next);
  }

  lemma LatestIsTheNewest(book: Book, agent: nat)
    requires book.next > 0 && book.next - 1 in book.charters && book.charters[book.next - 1].agent == agent
    ensures Latest(book, agent) == Some(book.next - 1)
  {
  }

  lemma VersionsBelow(charters: map<nat, Charter>, agent: nat, n: nat)
    requires n !in charters
    ensures VersionsOf(charters, agent, n + 1) == VersionsOf(charters, agent, n)
  {
  }

  // ---------------------------------------------------------------- the first version

  /** How many amendments a version stands on. */
  function Depth(charters: map<nat, Charter>, id: nat): nat
    decreases id
  {
    if id in charters && charters[id].supersedes.Some? && charters[id].supersedes.value < id then
      1 + Depth(charters, charters[id].supersedes.value)
    else 0
  }

  /** The walk back, that many amendments at most. */
  function WalkBack(charters: map<nat, Charter>, id: nat, hops: nat): nat
    decreases hops
  {
    if hops > 0 && id in charters && charters[id].supersedes.Some? && charters[id].supersedes.value in charters then
      WalkBack(charters, charters[id].supersedes.value, hops - 1)
    else id
  }

  /**
   * The walk ends at a version a commit announced exactly when the chain is within the bound; each amendment between
   * counted the version up by one.
   */
  lemma {:induction false} WalkEndsAtTheDraft(book: Book, id: nat, hops: nat)
    requires Inv(book) && id in book.charters
    ensures
      var first := WalkBack(book.charters, id, hops);
      && first in book.charters && first <= id && book.charters[first].agent == book.charters[id].agent
      && (book.charters[first].supersedes.None? <==> Depth(book.charters, id) <= hops)
      && (Depth(book.charters, id) <= hops <==> Drafted(first, book.charters[first].version) in book.events)
      && (Depth(book.charters, id) > 0 && Depth(book.charters, id) <= hops ==>
            && book.charters[first].version.Dotted? && book.charters[first].approved
            && var version := book.charters[first].version;
               book.charters[id].version == Dotted(version.major, version.minor + Depth(book.charters, id)))
    decreases id
  {
    assert Linked(book.charters, id) && Logged(book, id);
    var e :| e in book.events && Announces(e, book.charters, id);
    if book.charters[id].supersedes.Some? && hops > 0 {
      var p := book.charters[id].supersedes.value;
      WalkEndsAtTheDraft(book, p, hops - 1);
      assert WalkBack(book.charters, id, hops) == WalkBack(book.charters, p, hops - 1);
      assert Depth(book.charters, id) == 1 + Depth(book.charters, p);
    }
  }
}
