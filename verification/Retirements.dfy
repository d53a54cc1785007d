/** What retiring one employee does to the first rejection its colleagues meet (convex/reset.ts). */
module Retirements {
  import opened Prelude
  import opened Rejections

  function Bound(item: Item): RetiredRejection
    requires RejectionTime(item).Some?
  {
    RetiredRejection(item.id, NamesOf(item), RejectionTime(item).value)
  }

  predicate Binds(item: Item) {
    RejectionTime(item).Some? && NamesOf(item) != []
  }

  /** The rejections of an employee's work its retirement keeps, by the items' names. */
  function BoundariesOf(items: seq<Item>): (r: seq<RetiredRejection>)
    ensures forall on :: on in r <==> exists x <- items :: Binds(x) && on == Bound(x)
  {
    if items == [] then []
    else
      var front, last := items[..|items| - 1], items[|items| - 1];
      assert items == front + [last];
      assert last in items;
      if Binds(last) then BoundariesOf(front) + [Bound(last)] else BoundariesOf(front)
  }

  /** A single retire: the employee's rows go, and its rejections stay on a new retirement of its owner. */
  function RetireOne(db: Db, agent: nat): Db
    requires agent in db.owners
  {
    var own := Filter(db.items, (x: Item) => x.agent == agent);
    Db(
      Filter(db.items, (x: Item) => x.agent != agent), db.owners - {agent},
      [Retirement(db.owners[agent], agent, BoundariesOf(own))] + db.retirements)
  }

  /** A colleague's plan is held by the same live rows less the retired employee's. */
  lemma LiveAfter(db: Db, row: Item, agent: nat, x: Item)
    requires agent in db.owners && row.agent != agent
    ensures Holds(RetireOne(db, agent), row, x) <==> Holds(db, row, x) && x.agent != agent
  {
  }

  /** And by the same retired rejections with the retired employee's own, when the two had one owner. */
  lemma RetiredAfter(db: Db, row: Item, agent: nat, on: RetiredOn)
    requires agent in db.owners && row.agent != agent && row.agent in db.owners
    ensures
      HoldsRetired(RetireOne(db, agent), row, on) <==>
      || HoldsRetired(db, row, on)
      || (db.owners[agent] == db.owners[row.agent] && exists x <- db.items :: MovesTo(row, agent, x, on))
  {
    var after := RetireOne(db, agent);
    var own := Filter(db.items, (x: Item) => x.agent == agent);
    var added := Retirement(db.owners[agent], agent, BoundariesOf(own));
    var owner := db.owners[row.agent];
    AllRetiredExactly(OwnerRetirements(db, owner));
    AllRetiredExactly(OwnerRetirements(after, owner));
    assert after.retirements[1..] == db.retirements;
    AddedExactly(row, agent, db.items, added, on);
  }

  /** A rejected row of the retired employee under one of the item's names, and what it leaves. */
  predicate MovesTo(row: Item, agent: nat, x: Item, on: RetiredOn) {
    x.agent == agent && Binds(x) && Bears(x, NamesOf(row)) && on == RetiredOn(agent, Bound(x))
  }

  lemma AddedExactly(row: Item, agent: nat, items: seq<Item>, added: Retirement, on: RetiredOn)
    requires added.agent == agent && added.rejections == BoundariesOf(Filter(items, (x: Item) => x.agent == agent))
    ensures
      on in RejectionsOf(added) && Names(on.rejection, NamesOf(row)) <==>
      exists x <- items :: MovesTo(row, agent, x, on)
  {
    var own := Filter(items, (x: Item) => x.agent == agent);
    if exists x <- items :: MovesTo(row, agent, x, on) {
      var x :| x in items && MovesTo(row, agent, x, on);
      NamesOfBound(x, NamesOf(row));
      assert x in own && Bound(x) in added.rejections;
      var i :| 0 <= i < |added.rejections| && added.rejections[i] == Bound(x);
      assert RejectionsOf(added)[i] == on;
    }
    if on in RejectionsOf(added) && Names(on.rejection, NamesOf(row)) {
      assert on.rejection in added.rejections;
      var x :| x in own && Binds(x) && on.rejection == Bound(x);
      NamesOfBound(x, NamesOf(row));
      assert MovesTo(row, agent, x, on);
    }
  }

  lemma NamesOfBound(x: Item, wanted: seq<string>)
    requires Binds(x)
    ensures Names(Bound(x), wanted) <==> Bears(x, wanted)
  {
    var names := NamesOf(x);
    if x.claimKey.Some? { assert names[0] == x.claimKey.value && x.claimKey.value in names; }
    if x.claimAlias.Some? { assert names[|names| - 1] == x.claimAlias.value && x.claimAlias.value in names; }
    assert forall key <- Bound(x).keys :: x.claimKey == Some(key) || x.claimAlias == Some(key);
  }

  // ---------------------------------------------------------------- the answer before and after

  lemma {:induction false} FewerLeft(rows: seq<Item>, p: Item -> bool, q: Item -> bool, r: Item -> bool)
    requires forall x :: p(x) && q(x) ==> r(x)
    ensures |Filter(Filter(rows, p), q)| <= |Filter(rows, r)|
  {
    if rows != [] {
      FewerLeft(rows[1..], p, q, r);
      if p(rows[0]) {
        assert ([rows[0]] + Filter(rows[1..], p))[1..] == Filter(rows[1..], p);
      }
    }
  }

  /** Retiring crowds no range further. */
  lemma FewOthersAfter(db: Db, row: Item, agent: nat)
    requires agent in db.owners && row.agent != agent && FewOthers(db, row)
    ensures FewOthers(RetireOne(db, agent), row)
  {
    var after := RetireOne(db, agent);
    forall name, index: Index | name in NamesOf(row) && index.clock != First
      ensures |Others(after, row, index, name)| < TICKET_ROWS_READ
    {
      FewerLeft(
        db.items, (x: Item) => x.agent != agent, (x: Item) => Reaches(x, index, name) && !Qualifies(after, row, x),
        (x: Item) => Reaches(x, index, name) && !Qualifies(db, row, x));
      assert |Others(db, row, index, name)| < TICKET_ROWS_READ;
    }
  }

  lemma {:induction false} DistinctAfter(items: seq<Item>, p: Item -> bool)
    requires DistinctIds(items)
    ensures DistinctIds(Filter(items, p))
  {
    if items != [] {
      DistinctAfter(items[1..], p);
      assert forall x <- items[1..] :: x.id != items[0].id;
      assert forall x <- Filter(items[1..], p) :: x.id != items[0].id;
    }
  }

  predicate SameTime(a: Option<Rejection>, b: Option<Rejection>) {
    if a.None? || b.None? then a == b else TimeOf(a.value) == TimeOf(b.value)
  }

  /** Whether a time is earlier than an answer; any time is earlier than none. */
  predicate Before(time: int, answer: Option<Rejection>) {
    answer.None? || time < TimeOf(answer.value)
  }

  /** No revocation-trial row bears a name of a provider item. */
  predicate TrialsUnnamed(items: seq<Item>) {
    forall x <- items | x.trial :: NamesOf(x) == []
  }

  /**
   * Retiring a colleague moves its rejections without moving the time a plan is held on: each sibling's answer stays at
   * the earliest, and at none exactly where it was none.
   */
  lemma RetiringKeepsTheAnswer(db: Db, row: Item, agent: nat)
    requires DistinctIds(db.items) && TrialsUnnamed(db.items) && forall y <- db.items :: TimesOrdered(y)
    requires row in db.items && agent in db.owners && row.agent != agent
    requires Answers(db, row) && FewOthers(db, row) && Answers(RetireOne(db, agent), row)
    ensures
      var before, after := FirstTicketRejection(db, row), FirstTicketRejection(RetireOne(db, agent), row);
      && before.Ok? && after.Ok? && SameTime(before.value, after.value)
      && IsEarliest(RetireOne(db, agent), row, after.value)
  {
    var next := RetireOne(db, agent);
    DistinctAfter(db.items, (x: Item) => x.agent != agent);
    FewOthersAfter(db, row, agent);
    EarliestIsFound(db, row);
    EarliestIsFound(next, row);
    var before, after := FirstTicketRejection(db, row).value, FirstTicketRejection(next, row).value;
    NothingIsLost(db, row, agent, before, after);
    NothingIsNew(db, row, agent, before, after);
  }

  lemma LeftBehind(db: Db, row: Item, agent: nat, x: Item, after: Option<Rejection>)
    requires Answers(db, row) && agent in db.owners && row.agent != agent && db.owners[agent] == db.owners[row.agent]
    requires IsEarliest(RetireOne(db, agent), row, after)
    requires x in db.items && x.agent == agent && Binds(x) && Bears(x, NamesOf(row))
    ensures after.Some? && TimeOf(after.value) <= At(x, First)
  {
    var on := RetiredOn(agent, Bound(x));
    assert MovesTo(row, agent, x, on);
    RetiredAfter(db, row, agent, on);
    assert HoldsRetired(RetireOne(db, agent), row, on);
  }

  lemma NothingIsLost(db: Db, row: Item, agent: nat, before: Option<Rejection>, after: Option<Rejection>)
    requires Answers(db, row) && agent in db.owners && row.agent != agent
    requires IsEarliest(db, row, before) && IsEarliest(RetireOne(db, agent), row, after)
    ensures before.Some? ==> after.Some? && TimeOf(after.value) <= TimeOf(before.value)
  {
    if before.Some? {
      match before.value
      case Live(x) => LiveIsNotLost(db, row, agent, x, after);
      case Retired(on) => RetiredAfter(db, row, agent, on);
    }
  }

  lemma LiveIsNotLost(db: Db, row: Item, agent: nat, x: Item, after: Option<Rejection>)
    requires Answers(db, row) && agent in db.owners && row.agent != agent && Holds(db, row, x)
    requires IsEarliest(RetireOne(db, agent), row, after)
    ensures after.Some? && TimeOf(after.value) <= At(x, First)
  {
    if x.agent == agent {
      LeftBehind(db, row, agent, x, after);
    } else {
      LiveAfter(db, row, agent, x);
    }
  }

  /** A rejection a retirement leaves held the plan while its row lived. */
  lemma MovedHeld(db: Db, row: Item, agent: nat, x: Item, on: RetiredOn)
    requires DistinctIds(db.items) && TrialsUnnamed(db.items) && row in db.items && x in db.items
    requires
      agent in db.owners && row.agent in db.owners && row.agent != agent && db.owners[agent] == db.owners[row.agent]
    requires MovesTo(row, agent, x, on)
    ensures Holds(db, row, x) && At(x, First) == on.rejection.rejectedAt
  {
    SameIdOrNot(db.items, row, x);
  }

  lemma NothingIsNew(db: Db, row: Item, agent: nat, before: Option<Rejection>, after: Option<Rejection>)
    requires DistinctIds(db.items) && TrialsUnnamed(db.items) && row in db.items
    requires Answers(db, row) && agent in db.owners && row.agent != agent
    requires IsEarliest(db, row, before) && IsEarliest(RetireOne(db, agent), row, after)
    ensures after.Some? ==> !Before(TimeOf(after.value), before)
  {
    if after.Some? {
      match after.value
      case Live(x) => LiveAfter(db, row, agent, x);
      case Retired(on) => RetiredHeld(db, row, agent, on, before);
    }
  }

  lemma RetiredHeld(db: Db, row: Item, agent: nat, on: RetiredOn, before: Option<Rejection>)
    requires DistinctIds(db.items) && TrialsUnnamed(db.items) && row in db.items
    requires Answers(db, row) && agent in db.owners && row.agent != agent
    requires IsEarliest(db, row, before) && HoldsRetired(RetireOne(db, agent), row, on)
    ensures before.Some? && TimeOf(before.value) <= on.rejection.rejectedAt
  {
    RetiredAfter(db, row, agent, on);
    if !HoldsRetired(db, row, on) {
      var x :| x in db.items && MovesTo(row, agent, x, on);
      MovedHeld(db, row, agent, x, on);
    }
  }

  lemma SameIdOrNot(items: seq<Item>, row: Item, x: Item)
    requires DistinctIds(items) && row in items && x in items && x.agent != row.agent
    ensures x.id != row.id
  {
    if x.id == row.id { SameId(items, x, row); }
  }
}
