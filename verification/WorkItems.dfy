/**
 * Every writer of a work item's names and rejection times, as steps over the table
 * (convex/workSeeding.ts, convex/revocationEvaluation.ts, convex/managerDecisions.ts).
 */
module WorkItems {
  import opened Prelude
  import opened Rejections
  import opened Retirements

  // ---------------------------------------------------------------- what a row was listed as

  datatype Ref = Ref(source: string, externalId: string)

  predicate Digit(c: char) {
    '0' <= c <= '9'
  }

  /** Two digits, and a mark on a second try. */
  predicate TrialNumber(text: string) {
    |text| >= 2 && Digit(text[0]) && Digit(text[1]) && text[2..] in ["", "-retry"]
  }

  predicate TrialIdOf(kind: string, text: string) {
    kind <= text && TrialNumber(text[|kind|..])
  }

  /** The shape of a revocation trial's id, of either kind. */
  predicate TrialId(text: string) {
    TrialIdOf("rev-scope-", text) || TrialIdOf("rev-switch-", text)
  }

  const TRIAL_PREFIX: string := "EVAL-"

  function TrialRef(trialId: string): Ref {
    Ref("slack", TRIAL_PREFIX + trialId)
  }

  predicate IsTrial(ref: Ref) {
    ref.source == "slack" && TRIAL_PREFIX <= ref.externalId && TrialId(ref.externalId[|TRIAL_PREFIX|..])
  }

  lemma NumberHasNoColon(text: string)
    requires TrialNumber(text)
    ensures ':' !in text
  {
    assert text == text[..2] + text[2..];
  }

  lemma TrialHasNoColon(prefix: string, kind: string, text: string)
    requires ':' !in prefix && ':' !in kind && prefix <= text && TrialIdOf(kind, text[|prefix|..])
    ensures ':' !in text
  {
    var id := text[|prefix|..];
    NumberHasNoColon(id[|kind|..]);
    assert text == prefix + (kind + id[|kind|..]);
  }

  lemma TrialsHaveNoColon(ref: Ref)
    requires IsTrial(ref)
    ensures ':' !in ref.externalId
  {
    if TrialIdOf("rev-scope-", ref.externalId[|TRIAL_PREFIX|..]) {
      TrialHasNoColon(TRIAL_PREFIX, "rev-scope-", ref.externalId);
    } else {
      TrialHasNoColon(TRIAL_PREFIX, "rev-switch-", ref.externalId);
    }
  }

  /** What intake names a Slack message by, its channel and its time, is never a trial. */
  lemma MessageIsNoTrial(source: string, channel: string, ts: string)
    ensures !IsTrial(Ref(source, channel + ":" + ts))
  {
    var ref := Ref(source, channel + ":" + ts);
    assert ref.externalId[|channel|] == ':';
    if IsTrial(ref) {
      TrialsHaveNoColon(ref);
    }
  }

  // ---------------------------------------------------------------- the steps

  /** The tables, what each row was listed as, the next row's id and the clock. */
  datatype World = World(db: Db, refs: map<nat, Ref>, next: nat, clock: Time)

  const START: World := World(Db([], map[], []), map[], 0, 1)

  datatype Step =
    | Hire(agent: nat, owner: string)
    | Trial(agent: nat, trialId: string)
    | Seed(agent: nat, ref: Ref, key: Option<string>, alias: Option<string>)
    | RejectPlan(id: nat)
    | RejectActions(id: nat)
    | Retire(agent: nat)

  /** The row an employee already holds for a listed item. */
  function ListedRow(items: seq<Item>, refs: map<nat, Ref>, agent: nat, ref: Ref): (row: Option<Item>)
    ensures
      row.Some? ==> row.value in items && row.value.agent == agent && row.value.id in refs && refs[row.value.id] == ref
  {
    if items == [] then None
    else if items[0].agent == agent && items[0].id in refs && refs[items[0].id] == ref then Some(items[0])
    else ListedRow(items[1..], refs, agent, ref)
  }

  function Insert(w: World, agent: nat, ref: Ref, key: Option<string>, alias: Option<string>): World {
    var row := Item(w.next, agent, key, alias, None, None, IsTrial(ref));
    w.(db := w.db.(items := w.db.items + [row]), refs := w.refs[w.next := ref], next := w.next + 1)
  }

  function Patch(w: World, id: nat, patched: Item -> Item): World {
    w.(db := w.db.(items := Map(w.db.items, (x: Item) => if x.id == id then patched(x) else x)))
  }

  /** An item seeded before its other name was read takes it, unless it is the name it has. */
  function Remembered(item: Item, alias: Option<string>): Item {
    if alias.None? || item.claimAlias.Some? || item.claimKey == alias then item else item.(claimAlias := alias)
  }

  function Next(w: World, step: Step): World {
    match step
    case Hire(agent, owner) =>
      if agent in w.db.owners then w else w.(db := w.db.(owners := w.db.owners[agent := owner]))
    case Trial(agent, trialId) =>
      var ref := TrialRef(trialId);
      if agent !in w.db.owners || !TrialId(trialId) || ListedRow(w.db.items, w.refs, agent, ref).Some? then w
      else
        Insert(w, agent, ref, None, None)
    case Seed(agent, ref, key, alias) =>
      if agent !in w.db.owners then w
      else
        var existing := ListedRow(w.db.items, w.refs, agent, ref);
        if existing.None? then Insert(w, agent, ref, key, alias)
        else
          Patch(w, existing.value.id, (x: Item) => Remembered(x, alias))
    case RejectPlan(id) => Patch(w, id, (x: Item) => PlanRejected(x, w.clock))
    case RejectActions(id) => Patch(w, id, (x: Item) => ActionsRejected(x, w.clock))
    case Retire(agent) => if agent in w.db.owners then w.(db := RetireOne(w.db, agent)) else w
  }

  /** A step, and how long after the one before it. */
  datatype Event = Event(elapsed: nat, step: Step)

  function Later(w: World, elapsed: nat): World {
    w.(clock := w.clock + elapsed)
  }

  function Run(w: World, events: seq<Event>): World {
    if events == [] then w
    else
      var last := events[|events| - 1];
      Next(Later(Run(w, events[..|events| - 1]), last.elapsed), last.step)
  }

  /** No provider lists an item as a trial: one listed so, by an evaluation in mock mode, is given no names. */
  predicate Listing(step: Step) {
    step.Seed? && IsTrial(step.ref) ==> step.key.None? && step.alias.None?
  }

  predicate Listings(events: seq<Event>) {
    forall e <- events :: Listing(e.step)
  }

  // ---------------------------------------------------------------- what every step keeps

  predicate RowOk(w: World, x: Item) {
    && x.id < w.next && x.id in w.refs && x.trial == IsTrial(w.refs[x.id])
    && TimesOrdered(x) && NoLater(x, w.clock) && (x.trial ==> NamesOf(x) == [])
  }

  predicate RowsOk(w: World) {
    forall x <- w.db.items :: RowOk(w, x)
  }

  /** Ids are one row's and times in order and past; a trial row is one by its listing, and bears no names. */
  predicate Inv(w: World) {
    DistinctIds(w.db.items) && RowsOk(w)
  }

  lemma InsertKeeps(w: World, agent: nat, ref: Ref, key: Option<string>, alias: Option<string>)
    requires Inv(w) && (IsTrial(ref) ==> key.None? && alias.None?)
    ensures Inv(Insert(w, agent, ref, key, alias))
  {
    var after := Insert(w, agent, ref, key, alias);
    forall x | x in after.db.items
      ensures RowOk(after, x)
    {
      if x in w.db.items { assert RowOk(w, x); }
    }
    assert forall x <- w.db.items :: RowOk(w, x) && x.id != w.next;
  }

  /** A patch keeps the invariant when it keeps each row's id, trial mark, order of times and lack of names. */
  lemma PatchKeeps(w: World, id: nat, patched: Item -> Item)
    requires Inv(w)
    requires forall x <- w.db.items :: x.id == id ==> patched(x).id == id && RowOk(w, patched(x))
    ensures Inv(Patch(w, id, patched))
  {
    var after := Patch(w, id, patched);
    forall x | x in after.db.items
      ensures RowOk(after, x)
    {
      var i :| 0 <= i < |after.db.items| && after.db.items[i] == x;
      assert RowOk(w, w.db.items[i]);
    }
    assert forall i :: 0 <= i < |w.db.items| ==> after.db.items[i].id == w.db.items[i].id;
  }

  lemma SeedKeeps(w: World, step: Step)
    requires Inv(w) && step.Seed? && Listing(step)
    ensures Inv(Next(w, step))
  {
    if step.agent in w.db.owners {
      var existing := ListedRow(w.db.items, w.refs, step.agent, step.ref);
      if existing.None? {
        InsertKeeps(w, step.agent, step.ref, step.key, step.alias);
      } else {
        var id := existing.value.id;
        forall x | x in w.db.items && x.id == id
          ensures RowOk(w, Remembered(x, step.alias))
        {
          assert RowOk(w, x);
        }
        PatchKeeps(w, id, (x: Item) => Remembered(x, step.alias));
      }
    }
  }

  lemma RejectKeeps(w: World, id: nat)
    requires Inv(w)
    ensures Inv(Next(w, RejectPlan(id))) && Inv(Next(w, RejectActions(id)))
  {
    forall x | x in w.db.items && x.id == id
      ensures RowOk(w, PlanRejected(x, w.clock)) && RowOk(w, ActionsRejected(x, w.clock))
    {
      assert RowOk(w, x);
      RejectingKeepsTheFirstTime(x, w.clock);
    }
    PatchKeeps(w, id, (x: Item) => PlanRejected(x, w.clock));
    PatchKeeps(w, id, (x: Item) => ActionsRejected(x, w.clock));
  }

  lemma RetireKeeps(w: World, agent: nat)
    requires Inv(w)
    ensures Inv(Next(w, Retire(agent)))
  {
    if agent in w.db.owners {
      var after := Next(w, Retire(agent));
      DistinctAfter(w.db.items, (x: Item) => x.agent != agent);
      forall x | x in after.db.items
        ensures RowOk(after, x)
      {
        assert RowOk(w, x);
      }
    }
  }

  lemma StepKeepsInv(w: World, step: Step)
    requires Inv(w) && Listing(step)
    ensures Inv(Next(w, step))
  {
    match step
    case Hire(agent, owner) =>
      assert forall x <- w.db.items :: RowOk(w, x) ==> RowOk(Next(w, step), x);
    case Trial(agent, trialId) => InsertKeeps(w, agent, TrialRef(trialId), None, None);
    case Seed(_, _, _, _) => SeedKeeps(w, step);
    case RejectPlan(id) => RejectKeeps(w, id);
    case RejectActions(id) => RejectKeeps(w, id);
    case Retire(agent) => RetireKeeps(w, agent);
  }

  lemma LaterKeepsInv(w: World, elapsed: nat)
    requires Inv(w)
    ensures Inv(Later(w, elapsed))
  {
    assert forall x <- w.db.items :: RowOk(w, x) ==> RowOk(Later(w, elapsed), x);
  }

  lemma {:induction false} RunKeepsInv(w: World, events: seq<Event>)
    requires Inv(w) && Listings(events)
    ensures Inv(Run(w, events))
  {
    if events != [] {
      var front, last := events[..|events| - 1], events[|events| - 1];
      assert last in events && forall e <- front :: e in events;
      RunKeepsInv(w, front);
      LaterKeepsInv(Run(w, front), last.elapsed);
      StepKeepsInv(Later(Run(w, front), last.elapsed), last.step);
    }
  }

  // ---------------------------------------------------------------- what no step takes back

  /** A row at a later moment: the same row, its other name and its first rejection kept once it has them. */
  predicate GoesOn(x: Item, later: Item) {
    && later.id == x.id && later.agent == x.agent && later.claimKey == x.claimKey && later.trial == x.trial
    && (x.claimAlias.Some? ==> later.claimAlias == x.claimAlias)
    && (RejectionTime(x).Some? ==> RejectionTime(later) == RejectionTime(x))
  }

  ghost predicate WentOn(w: World, y: Item) {
    y.id >= w.next || exists x <- w.db.items :: GoesOn(x, y)
  }

  /** Every row of the later table is new, or one that stood before. */
  ghost predicate RowsGoOn(w: World, after: World) {
    w.next <= after.next && forall y <- after.db.items :: WentOn(w, y)
  }

  lemma PatchGoesOn(w: World, id: nat, patched: Item -> Item)
    requires forall x <- w.db.items :: x.id == id ==> GoesOn(x, patched(x))
    ensures RowsGoOn(w, Patch(w, id, patched))
  {
    var after := Patch(w, id, patched);
    forall y | y in after.db.items
      ensures WentOn(w, y)
    {
      var i :| 0 <= i < |after.db.items| && after.db.items[i] == y;
      assert w.db.items[i] in w.db.items && GoesOn(w.db.items[i], y);
    }
  }

  lemma StepGoesOn(w: World, step: Step)
    requires Inv(w)
    ensures RowsGoOn(w, Next(w, step))
  {
    match step
    case Seed(agent, ref, key, alias) =>
      if agent in w.db.owners && ListedRow(w.db.items, w.refs, agent, ref).Some? {
        var id := ListedRow(w.db.items, w.refs, agent, ref).value.id;
        PatchGoesOn(w, id, (x: Item) => Remembered(x, alias));
      } else {
        AddedGoesOn(w, Next(w, step));
      }
    case RejectPlan(id) =>
      forall x | x in w.db.items ensures GoesOn(x, PlanRejected(x, w.clock)) { RejectGoesOn(w, x); }
      PatchGoesOn(w, id, (x: Item) => PlanRejected(x, w.clock));
    case RejectActions(id) =>
      forall x | x in w.db.items ensures GoesOn(x, ActionsRejected(x, w.clock)) { RejectGoesOn(w, x); }
      PatchGoesOn(w, id, (x: Item) => ActionsRejected(x, w.clock));
    case _ => AddedGoesOn(w, Next(w, step));
  }

  lemma RejectGoesOn(w: World, x: Item)
    requires Inv(w) && x in w.db.items
    ensures GoesOn(x, PlanRejected(x, w.clock)) && GoesOn(x, ActionsRejected(x, w.clock))
  {
    assert RowOk(w, x);
    RejectingKeepsTheFirstTime(x, w.clock);
  }

  lemma AddedGoesOn(w: World, after: World)
    requires w.next <= after.next && forall y <- after.db.items :: y in w.db.items || y.id >= w.next
    ensures RowsGoOn(w, after)
  {
    forall y | y in after.db.items ensures WentOn(w, y) {
      if y in w.db.items { assert GoesOn(y, y); }
    }
  }

  /** Over every run a row keeps its employee, its name, its other name once it has one, and its first rejection. */
  lemma {:induction false} RunGoesOn(w: World, events: seq<Event>)
    requires Inv(w) && Listings(events)
    ensures RowsGoOn(w, Run(w, events))
  {
    if events == [] {
      AddedGoesOn(w, w);
    } else {
      var front, last := events[..|events| - 1], events[|events| - 1];
      assert last in events && forall e <- front :: e in events;
      var before := Run(w, front);
      RunGoesOn(w, front);
      RunKeepsInv(w, front);
      LaterKeepsInv(before, last.elapsed);
      StepGoesOn(Later(before, last.elapsed), last.step);
      forall y | y in Run(w, events).db.items
        ensures WentOn(w, y)
      {
        GoesOnTwice(w, Later(before, last.elapsed), y);
      }
    }
  }

  lemma GoesOnTwice(w: World, before: World, y: Item)
    requires RowsGoOn(w, before) && WentOn(before, y)
    ensures WentOn(w, y)
  {
    if y.id < before.next {
      var x :| x in before.db.items && GoesOn(x, y);
      if x.id < w.next {
        var start :| start in w.db.items && GoesOn(start, x);
        assert GoesOn(start, y);
      }
    }
  }

  /**
   * An item is listed once for an employee, under the names it was first seen by; seen again it takes its other name
   * only if it had none and this is not the name it has.
   */
  lemma ListedOnce(w: World, agent: nat, ref: Ref, key: Option<string>, alias: Option<string>, again: Option<string>)
    requires Inv(w) && agent in w.db.owners && ListedRow(w.db.items, w.refs, agent, ref).None?
    ensures
      var listed := Next(w, Seed(agent, ref, key, alias));
      var seen := Next(listed, Seed(agent, ref, key, again));
      var row := Item(w.next, agent, key, alias, None, None, IsTrial(ref));
      && listed.db.items == w.db.items + [row] && |seen.db.items| == |listed.db.items|
      && seen.db.items[|w.db.items|] ==
           row.(claimAlias := if alias.Some? then alias else if again == key then None else again)
  {
    var listed := Next(w, Seed(agent, ref, key, alias));
    var row := Item(w.next, agent, key, alias, None, None, IsTrial(ref));
    assert listed.db.items[|w.db.items|] == row && row in listed.db.items;
    NotListed(w.db.items, w.refs, agent, ref);
    forall x | x in w.db.items
      ensures !(x.agent == agent && x.id in listed.refs && listed.refs[x.id] == ref)
    {
      assert RowOk(w, x);
    }
    FoundAgain(w.db.items, row, listed.refs, agent, ref);
  }

  lemma {:induction false} NotListed(items: seq<Item>, refs: map<nat, Ref>, agent: nat, ref: Ref)
    requires ListedRow(items, refs, agent, ref).None?
    ensures forall x <- items :: !(x.agent == agent && x.id in refs && refs[x.id] == ref)
  {
    if items != [] {
      NotListed(items[1..], refs, agent, ref);
      assert forall x <- items :: x == items[0] || x in items[1..];
    }
  }

  lemma {:induction false} FoundAgain(items: seq<Item>, row: Item, refs: map<nat, Ref>, agent: nat, ref: Ref)
    requires row.agent == agent && row.id in refs && refs[row.id] == ref
    requires forall x <- items :: !(x.agent == agent && x.id in refs && refs[x.id] == ref)
    ensures ListedRow(items + [row], refs, agent, ref) == Some(row)
  {
    if items != [] {
      assert (items + [row])[0] == items[0] && (items + [row])[1..] == items[1..] + [row];
      assert items[0] in items;
      FoundAgain(items[1..], row, refs, agent, ref);
    }
  }

  // ---------------------------------------------------------------- the answer over runs

  lemma TablesOf(events: seq<Event>)
    requires Listings(events)
    ensures
      var db := Run(START, events).db;
      DistinctIds(db.items) && TrialsUnnamed(db.items) && forall y <- db.items :: TimesOrdered(y)
  {
    RunKeepsInv(START, events);
    assert forall x <- Run(START, events).db.items :: RowOk(Run(START, events), x);
  }

  /** Over every run, behind fewer than the bound of others, the answer is the whole table's earliest rejection. */
  lemma RunFindsTheEarliest(events: seq<Event>, row: Item)
    requires Listings(events)
    requires
      var db := Run(START, events).db;
      Answers(db, row) && FewOthers(db, row)
    ensures
      var db := Run(START, events).db;
      FirstTicketRejection(db, row).Ok? && IsEarliest(db, row, FirstTicketRejection(db, row).value)
  {
    TablesOf(events);
    EarliestIsFound(Run(START, events).db, row);
  }

  /** And retiring a colleague then moves no sibling's answer: its time stays, or there is none before and after. */
  lemma RunRetiringKeepsTheAnswer(events: seq<Event>, row: Item, agent: nat)
    requires Listings(events)
    requires
      var db := Run(START, events).db;
      && row in db.items && agent in db.owners && row.agent != agent
      && Answers(db, row) && FewOthers(db, row) && Answers(RetireOne(db, agent), row)
    ensures
      var db := Run(START, events).db;
      var before, after := FirstTicketRejection(db, row), FirstTicketRejection(RetireOne(db, agent), row);
      before.Ok? && after.Ok? && SameTime(before.value, after.value)
  {
    TablesOf(events);
    RetiringKeepsTheAnswer(Run(START, events).db, row, agent);
  }
}
