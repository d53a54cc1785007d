/**
 * The first rejection of a provider item, read through bounded indexes (convex/corrections.ts, convex/retirements.ts).
 */
module Rejections {
  import opened Prelude

  // ---------------------------------------------------------------- the tables read

  datatype Item = Item(
    id: nat, agent: nat, claimKey: Option<string>, claimAlias: Option<string>,
    rejectedAt: Option<Time>, planRejectedAt: Option<Time>, trial: bool)

  datatype RetiredRejection = RetiredRejection(item: nat, keys: seq<string>, rejectedAt: Time)

  datatype Retirement = Retirement(owner: string, agent: nat, rejections: seq<RetiredRejection>)

  /** Work items in the order they were created, each employee's owner, and the retirements newest first. */
  datatype Db = Db(items: seq<Item>, owners: map<nat, string>, retirements: seq<Retirement>)

  const TICKET_ROWS_READ: nat := 32
  const RETIREMENT_READ_LIMIT: nat := 1000

  predicate DistinctIds(items: seq<Item>) {
    forall i, j :: 0 <= i < j < |items| ==> items[i].id != items[j].id
  }

  /** What the writers of the two times keep: a first rejection is no later than the newest plan rejection. */
  predicate TimesOrdered(item: Item) {
    item.rejectedAt.Some? && item.planRejectedAt.Some? ==> item.rejectedAt.value <= item.planRejectedAt.value
  }

  // ---------------------------------------------------------------- the writers of the two times

  function PlanRejected(item: Item, now: Time): Item {
    item.(
      planRejectedAt := Some(now),
      rejectedAt := Some(if item.rejectedAt.Some? then item.rejectedAt.value
                         else if item.planRejectedAt.Some? then item.planRejectedAt.value else now))
  }

  function ActionsRejected(item: Item, now: Time): Item {
    item.(
      rejectedAt := Some(if item.rejectedAt.Some? then item.rejectedAt.value
                         else if item.planRejectedAt.Some? then item.planRejectedAt.value else now))
  }

  function RejectionTime(item: Item): Option<Time> {
    if item.rejectedAt.Some? then item.rejectedAt else item.planRejectedAt
  }

  predicate NoLater(item: Item, now: Time) {
    && (item.rejectedAt.Some? ==> item.rejectedAt.value <= now)
    && (item.planRejectedAt.Some? ==> item.planRejectedAt.value <= now)
  }

  /**
   * Rejecting, at a clock no earlier than the row's own times, keeps the order of the two times and the row's first
   * rejection time once it has one.
   */
  lemma RejectingKeepsTheFirstTime(item: Item, now: Time)
    requires TimesOrdered(item) && NoLater(item, now)
    ensures TimesOrdered(PlanRejected(item, now)) && TimesOrdered(ActionsRejected(item, now))
    ensures RejectionTime(PlanRejected(item, now)) == RejectionTime(ActionsRejected(item, now))
    ensures
      RejectionTime(PlanRejected(item, now)) == if RejectionTime(item).Some? then RejectionTime(item) else Some(now)
    ensures PlanRejected(item, now).planRejectedAt == Some(now)
    ensures ActionsRejected(item, now) == item.(rejectedAt := RejectionTime(ActionsRejected(item, now)))
    ensures
      PlanRejected(item, now) == ActionsRejected(item, now).(planRejectedAt := PlanRejected(item, now).planRejectedAt)
  {
  }

  // ---------------------------------------------------------------- rows in the order of a time

  datatype Clock = RejectedAt | PlanRejectedAt | First

  function Reading(item: Item, clock: Clock): Option<Time> {
    match clock
    case RejectedAt => item.rejectedAt
    case PlanRejectedAt => item.planRejectedAt
    case First => RejectionTime(item)
  }

  function At(item: Item, clock: Clock): int {
    if Reading(item, clock).Some? then Reading(item, clock).value else 0
  }

  predicate Ordered(rows: seq<Item>, clock: Clock) {
    forall i, j :: 0 <= i < j < |rows| ==> At(rows[i], clock) <= At(rows[j], clock)
  }

  /** A row put among ordered ones, after its equals. */
  function Placed(rows: seq<Item>, clock: Clock, row: Item): (r: seq<Item>)
    requires Ordered(rows, clock)
    ensures Ordered(r, clock) && |r| == |rows| + 1
    ensures forall x :: x in r <==> x == row || x in rows
  {
    if rows == [] || At(rows[|rows| - 1], clock) <= At(row, clock) then rows + [row]
    else
      var last := rows[|rows| - 1];
      var r := Placed(rows[..|rows| - 1], clock, row);
      assert rows == rows[..|rows| - 1] + [last];
      assert forall x <- r :: At(x, clock) <= At(last, clock);
      r + [last]
  }

  /** The stable sort by a time: an index range, and the sorted candidates. */
  function InOrder(rows: seq<Item>, clock: Clock): (r: seq<Item>)
    ensures Ordered(r, clock) && |r| == |rows|
    ensures forall x :: x in r <==> x in rows
  {
    if rows == [] then []
    else
      assert rows == rows[..|rows| - 1] + [rows[|rows| - 1]];
      Placed(InOrder(rows[..|rows| - 1], clock), clock, rows[|rows| - 1])
  }

  // ---------------------------------------------------------------- the four indexes

  datatype Index = Index(alias: bool, clock: Clock)

  function NameIn(item: Item, index: Index): Option<string> {
    if index.alias then item.claimAlias else item.claimKey
  }

  predicate Reaches(item: Item, index: Index, name: string) {
    NameIn(item, index) == Some(name) && Reading(item, index.clock).Some?
  }

  /** The rows of one index under one name, first rejection first. */
  function Range(items: seq<Item>, index: Index, name: string): (r: seq<Item>)
    ensures Ordered(r, index.clock) && forall x :: x in r <==> x in items && Reaches(x, index, name)
  {
    InOrder(Filter(items, (x: Item) => Reaches(x, index, name)), index.clock)
  }

  function RowsIn(items: seq<Item>, index: Index, name: string): seq<Item> {
    Take(Range(items, index, name), TICKET_ROWS_READ)
  }

  function RejectedRowsNamed(items: seq<Item>, name: string): (r: seq<Item>)
    ensures
      forall x :: x in r <==>
                  || x in RowsIn(items, Index(false, RejectedAt), name)
                  || x in RowsIn(items, Index(true, RejectedAt), name)
                  || x in RowsIn(items, Index(false, PlanRejectedAt), name)
                  || x in RowsIn(items, Index(true, PlanRejectedAt), name)
  {
    RowsIn(items, Index(false, RejectedAt), name) + RowsIn(items, Index(true, RejectedAt), name)
    + RowsIn(items, Index(false, PlanRejectedAt), name) + RowsIn(items, Index(true, PlanRejectedAt), name)
  }

  // ---------------------------------------------------------------- the candidates, first rejection first

  function NamesOf(item: Item): seq<string> {
    (if item.claimKey.Some? then [item.claimKey.value] else [])
    + if item.claimAlias.Some? then [item.claimAlias.value] else []
  }

  function RowsNamed(items: seq<Item>, names: seq<string>): seq<Item> {
    if names == [] then [] else RowsNamed(items, names[..|names| - 1]) + RejectedRowsNamed(items, names[|names| - 1])
  }

  predicate HasId(rows: seq<Item>, id: nat) {
    exists i :: 0 <= i < |rows| && rows[i].id == id
  }

  /** Each row once, at its first place. */
  function Once(rows: seq<Item>): (r: seq<Item>)
    ensures forall x <- r :: x in rows
    ensures forall id :: HasId(r, id) <==> HasId(rows, id)
  {
    if rows == [] then []
    else
      var front, last := rows[..|rows| - 1], rows[|rows| - 1];
      assert rows == front + [last];
      HasIdAppend(front, last);
      HasIdAppend(Once(front), last);
      if HasId(Once(front), last.id) then Once(front) else Once(front) + [last]
  }

  lemma HasIdAppend(rows: seq<Item>, row: Item)
    ensures forall id :: HasId(rows + [row], id) <==> HasId(rows, id) || id == row.id
  {
    forall id
      ensures HasId(rows + [row], id) <==> HasId(rows, id) || id == row.id
    {
      assert (rows + [row])[|rows|] == row;
      if HasId(rows, id) {
        var i :| 0 <= i < |rows| && rows[i].id == id;
        assert (rows + [row])[i].id == id;
      }
    }
  }

  function Candidates(items: seq<Item>, names: seq<string>): seq<Item> {
    InOrder(Once(RowsNamed(items, names)), First)
  }

  function OwnerOf(db: Db, agent: nat): Option<string> {
    if agent in db.owners then Some(db.owners[agent]) else None
  }

  /**
   * The rows that hold the plan: rejected, on another work item, no revocation trial, of the same owner's employees.
   */
  predicate Qualifies(db: Db, row: Item, other: Item) {
    && other.id != row.id
    && RejectionTime(other).Some?
    && !other.trial
    && OwnerOf(db, other.agent) == OwnerOf(db, row.agent)
  }

  /** The first of a list that qualifies. */
  function FirstQualifying(db: Db, row: Item, rows: seq<Item>): Option<Item> {
    if rows == [] then None
    else if Qualifies(db, row, rows[0]) then Some(rows[0])
    else FirstQualifying(db, row, rows[1..])
  }

  // ---------------------------------------------------------------- the retired employees' rejections

  datatype RetiredOn = RetiredOn(agent: nat, rejection: RetiredRejection)

  function OwnerRetirements(db: Db, owner: string): seq<Retirement> {
    Filter(db.retirements, (r: Retirement) => r.owner == owner)
  }

  predicate Names(rejection: RetiredRejection, names: seq<string>) {
    exists key <- rejection.keys :: key in names
  }

  function RejectionsOf(retirement: Retirement): seq<RetiredOn> {
    Map(retirement.rejections, r => RetiredOn(retirement.agent, r))
  }

  function AllRetired(kept: seq<Retirement>): seq<RetiredOn> {
    if kept == [] then [] else AllRetired(kept[..|kept| - 1]) + RejectionsOf(kept[|kept| - 1])
  }

  /** Strictly earlier than the earliest before it, or the first. */
  predicate Earlier(on: RetiredOn, before: Option<RetiredOn>) {
    before.None? || on.rejection.rejectedAt < before.value.rejection.rejectedAt
  }

  /** The earliest of a list that bears one of the names; among equals the one read first. */
  function Earliest(rejections: seq<RetiredOn>, names: seq<string>): Option<RetiredOn> {
    if rejections == [] then None
    else
      var last := rejections[|rejections| - 1];
      var before := Earliest(rejections[..|rejections| - 1], names);
      if Names(last.rejection, names) && Earlier(last, before) then Some(last) else before
  }

  lemma {:induction false} EarliestExactly(rejections: seq<RetiredOn>, names: seq<string>)
    ensures
      var r := Earliest(rejections, names);
      && (r.None? <==> forall x <- rejections :: !Names(x.rejection, names))
      && (r.Some? ==> r.value in rejections && Names(r.value.rejection, names))
      && (r.Some? ==>
            forall x <- rejections ::
              Names(x.rejection, names) ==> r.value.rejection.rejectedAt <= x.rejection.rejectedAt)
  {
    if rejections != [] {
      assert rejections == rejections[..|rejections| - 1] + [rejections[|rejections| - 1]];
      EarliestExactly(rejections[..|rejections| - 1], names);
    }
  }

  // ---------------------------------------------------------------- the answer

  datatype Rejection = Live(item: Item) | Retired(on: RetiredOn)

  function TimeOf(rejection: Rejection): int {
    match rejection
    case Live(item) => At(item, First)
    case Retired(on) => on.rejection.rejectedAt
  }

  /** The retired employee's rejection when it is strictly earlier, or alone. */
  function Sooner(live: Option<Item>, retired: Option<RetiredOn>): Option<Rejection> {
    if retired.Some? && (live.None? || retired.value.rejection.rejectedAt < At(live.value, First)) then
      Some(Retired(retired.value))
    else if live.Some? then Some(Live(live.value)) else None
  }

  function FirstTicketRejection(db: Db, row: Item): Result<Option<Rejection>, string> {
    var names := NamesOf(row);
    if names == [] || OwnerOf(db, row.agent).GetOr("") == "" then Ok(None)
    else
      var live := FirstQualifying(db, row, Candidates(db.items, names));
      var kept := OwnerRetirements(db, OwnerOf(db, row.agent).value);
      if |kept| > RETIREMENT_READ_LIMIT then Err("too many retired employees")
      else
        Ok(Sooner(live, Earliest(AllRetired(kept), names)))
  }

  // ---------------------------------------------------------------- what a bounded range read reaches

  function Passed(db: Db, row: Item, rows: seq<Item>): seq<Item> {
    Filter(rows, (x: Item) => !Qualifies(db, row, x))
  }

  predicate FirstIs(db: Db, row: Item, rows: seq<Item>, i: int) {
    0 <= i < |rows| && Qualifies(db, row, rows[i]) && forall j :: 0 <= j < i ==> !Qualifies(db, row, rows[j])
  }

  lemma {:induction false} FirstAt(db: Db, row: Item, rows: seq<Item>)
    ensures FirstQualifying(db, row, rows).None? <==> forall x <- rows :: !Qualifies(db, row, x)
    ensures
      var first := FirstQualifying(db, row, rows);
      first.Some? ==> exists i :: FirstIs(db, row, rows, i) && rows[i] == first.value
  {
    if rows != [] {
      if Qualifies(db, row, rows[0]) {
        assert FirstIs(db, row, rows, 0) && rows[0] in rows;
      } else {
        FirstAt(db, row, rows[1..]);
        assert forall x <- rows :: x == rows[0] || x in rows[1..];
        var first := FirstQualifying(db, row, rows[1..]);
        if first.Some? {
          var i :| FirstIs(db, row, rows[1..], i) && rows[1..][i] == first.value;
          assert rows[i + 1] == first.value;
          assert FirstIs(db, row, rows, i + 1) by {
            forall j | 0 <= j < i + 1
              ensures !Qualifies(db, row, rows[j])
            {
              if j > 0 { assert rows[1..][j - 1] == rows[j]; }
            }
          }
        }
      }
    }
  }

  lemma {:induction false} PassedAtLeast(db: Db, row: Item, rows: seq<Item>, n: nat)
    requires n <= |rows| && forall i :: 0 <= i < n ==> !Qualifies(db, row, rows[i])
    ensures |Passed(db, row, rows)| >= n
  {
    if n > 0 {
      PassedAtLeast(db, row, rows[1..], n - 1);
    }
  }

  /** A range that holds a qualifying row shows it, or one before it, behind fewer than the bound of others. */
  lemma RangeShowsOne(db: Db, row: Item, index: Index, name: string, other: Item)
    requires other in db.items && Reaches(other, index, name) && Qualifies(db, row, other)
    requires |Passed(db, row, Range(db.items, index, name))| < TICKET_ROWS_READ
    ensures
      exists x <- RowsIn(db.items, index, name) :: Qualifies(db, row, x) && At(x, index.clock) <= At(other, index.clock)
  {
    var rows := Range(db.items, index, name);
    FirstAt(db, row, rows);
    var i :| FirstIs(db, row, rows, i);
    PassedAtLeast(db, row, rows, i);
    var k :| 0 <= k < |rows| && rows[k] == other;
    assert RowsIn(db.items, index, name)[i] == rows[i];
  }

  /** Exactly: a range's first qualifying row is read if and only if fewer than the bound of others stand before it. */
  lemma ReadExactlyBehindFewer(db: Db, row: Item, index: Index, name: string, i: nat)
    requires FirstIs(db, row, Range(db.items, index, name), i)
    ensures
      var rows := Range(db.items, index, name);
      && |Passed(db, row, rows[..i])| == i
      && ((exists x <- RowsIn(db.items, index, name) :: Qualifies(db, row, x)) <==>
          |Passed(db, row, rows[..i])| < TICKET_ROWS_READ)
  {
    var rows := Range(db.items, index, name);
    var read := RowsIn(db.items, index, name);
    assert forall j :: 0 <= j < i ==> rows[..i][j] == rows[j];
    PassedAtLeast(db, row, rows[..i], i);
    if i < TICKET_ROWS_READ {
      assert read[i] == rows[i] && read[i] in read;
    } else {
      forall x | x in read ensures !Qualifies(db, row, x) {
        var j :| 0 <= j < |read| && read[j] == x;
        assert rows[j] == x;
      }
    }
  }

  // ---------------------------------------------------------------- the earliest rejection is found

  predicate Bears(item: Item, names: seq<string>) {
    (item.claimKey.Some? && item.claimKey.value in names) || (item.claimAlias.Some? && item.claimAlias.value in names)
  }

  /** Whether a row holds the plan of `row`, said of the whole table. */
  predicate Holds(db: Db, row: Item, other: Item) {
    other in db.items && Qualifies(db, row, other) && Bears(other, NamesOf(row))
  }

  predicate HoldsRetired(db: Db, row: Item, on: RetiredOn) {
    on in AllRetired(OwnerRetirements(db, OwnerOf(db, row.agent).GetOr(""))) && Names(on.rejection, NamesOf(row))
  }

  lemma {:induction false} AllRetiredExactly(kept: seq<Retirement>)
    ensures forall on :: on in AllRetired(kept) <==> exists r <- kept :: on in RejectionsOf(r)
  {
    if kept != [] {
      assert kept == kept[..|kept| - 1] + [kept[|kept| - 1]];
      AllRetiredExactly(kept[..|kept| - 1]);
    }
  }

  /**
   * What holds a plan, field by field: another row, no trial, with a rejection of its plan or of its actions, of an
   * employee of the same owner, that shares one of its two names with the plan's row.
   */
  lemma HoldsSaid(db: Db, row: Item, x: Item)
    ensures
      Holds(db, row, x) <==>
      && x in db.items && x.id != row.id && !x.trial && (x.rejectedAt.Some? || x.planRejectedAt.Some?)
      && (x.agent in db.owners <==> row.agent in db.owners)
      && (x.agent in db.owners ==> db.owners[x.agent] == db.owners[row.agent])
      && (|| (x.claimKey.Some? && (x.claimKey == row.claimKey || x.claimKey == row.claimAlias))
          || (x.claimAlias.Some? && (x.claimAlias == row.claimKey || x.claimAlias == row.claimAlias)))
  {
    var names := NamesOf(row);
    assert forall name :: name in names <==> row.claimKey == Some(name) || row.claimAlias == Some(name) by {
      if row.claimKey.Some? { assert names[0] == row.claimKey.value; }
      if row.claimAlias.Some? { assert names[|names| - 1] == row.claimAlias.value; }
    }
  }

  /** And of a retired employee's: kept for the same owner, under a key that is one of the row's two names. */
  lemma HoldsRetiredSaid(db: Db, row: Item, on: RetiredOn)
    ensures
      HoldsRetired(db, row, on) <==>
      && (exists r <- db.retirements ::
            && r.owner == (if row.agent in db.owners then db.owners[row.agent] else "")
            && r.agent == on.agent && on.rejection in r.rejections)
      && exists key <- on.rejection.keys :: row.claimKey == Some(key) || row.claimAlias == Some(key)
  {
    var owner := if row.agent in db.owners then db.owners[row.agent] else "";
    var names := NamesOf(row);
    assert forall name :: name in names <==> row.claimKey == Some(name) || row.claimAlias == Some(name) by {
      if row.claimKey.Some? { assert names[0] == row.claimKey.value; }
      if row.claimAlias.Some? { assert names[|names| - 1] == row.claimAlias.value; }
    }
    AllRetiredExactly(OwnerRetirements(db, owner));
    forall r | r in db.retirements
      ensures on in RejectionsOf(r) <==> r.agent == on.agent && on.rejection in r.rejections
    {
      OnRetirement(r, on);
    }
  }

  lemma OnRetirement(r: Retirement, on: RetiredOn)
    ensures on in RejectionsOf(r) <==> r.agent == on.agent && on.rejection in r.rejections
  {
    if r.agent == on.agent && on.rejection in r.rejections {
      var i :| 0 <= i < |r.rejections| && r.rejections[i] == on.rejection;
      assert RejectionsOf(r)[i] == on;
    }
  }

  /** The rows of one index under one name that do not qualify. */
  function Others(db: Db, row: Item, index: Index, name: string): seq<Item> {
    Filter(db.items, (x: Item) => Reaches(x, index, name) && !Qualifies(db, row, x))
  }

  /** Each of the index ranges read holds fewer than the bound of rows that do not qualify. */
  ghost predicate FewOthers(db: Db, row: Item) {
    forall name <- NamesOf(row), index: Index | index.clock != First ::
      |Others(db, row, index, name)| < TICKET_ROWS_READ
  }

  lemma NamedExactly(items: seq<Item>, name: string)
    ensures forall x <- RejectedRowsNamed(items, name) ::
        x in items && RejectionTime(x).Some? && (x.claimKey == Some(name) || x.claimAlias == Some(name))
  {
  }

  lemma {:induction false} RowsNamedExactly(items: seq<Item>, names: seq<string>)
    ensures forall x <- RowsNamed(items, names) :: x in items && Bears(x, names) && RejectionTime(x).Some?
    ensures forall name <- names, x <- RejectedRowsNamed(items, name) :: x in RowsNamed(items, names)
  {
    if names != [] {
      var front, last := names[..|names| - 1], names[|names| - 1];
      assert names == front + [last];
      RowsNamedExactly(items, front);
      NamedExactly(items, last);
      assert forall x | Bears(x, front) :: Bears(x, names);
    }
  }

  lemma OnceKeeps(items: seq<Item>, rows: seq<Item>, x: Item)
    requires DistinctIds(items) && x in rows && forall y <- rows :: y in items
    ensures x in Once(rows)
  {
    var k :| 0 <= k < |rows| && rows[k] == x;
    assert HasId(rows, x.id);
    var i :| 0 <= i < |Once(rows)| && Once(rows)[i].id == x.id;
    assert Once(rows)[i] in rows;
    SameId(items, x, Once(rows)[i]);
  }

  lemma CandidatesExactly(items: seq<Item>, names: seq<string>)
    requires DistinctIds(items)
    ensures forall x :: x in Candidates(items, names) <==> x in RowsNamed(items, names)
  {
    var rows := RowsNamed(items, names);
    RowsNamedExactly(items, names);
    forall x | x in rows
      ensures x in Once(rows)
    {
      OnceKeeps(items, rows, x);
    }
  }

  lemma SameId(items: seq<Item>, x: Item, y: Item)
    requires DistinctIds(items) && x in items && y in items && x.id == y.id
    ensures x == y
  {
    var i :| 0 <= i < |items| && items[i] == x;
    var j :| 0 <= j < |items| && items[j] == y;
    assert i == j;
  }

  lemma {:induction false} PassedAppend(db: Db, row: Item, a: seq<Item>, b: seq<Item>)
    ensures Passed(db, row, a + b) == Passed(db, row, a) + Passed(db, row, b)
  {
    if a == [] {
      assert a + b == b;
    } else {
      assert (a + b)[1..] == a[1..] + b;
      PassedAppend(db, row, a[1..], b);
    }
  }

  lemma {:induction false} PassedPlaced(db: Db, row: Item, rows: seq<Item>, clock: Clock, x: Item)
    requires Ordered(rows, clock)
    ensures |Passed(db, row, Placed(rows, clock, x))| == |Passed(db, row, rows + [x])|
  {
    if rows != [] && At(rows[|rows| - 1], clock) > At(x, clock) {
      var front, last := rows[..|rows| - 1], rows[|rows| - 1];
      assert rows == front + [last];
      PassedPlaced(db, row, front, clock, x);
      PassedAppend(db, row, front, [x]);
      PassedAppend(db, row, Placed(front, clock, x), [last]);
      PassedAppend(db, row, front, [last]);
      PassedAppend(db, row, rows, [x]);
    }
  }

  /** Ordering a range changes no count of it. */
  lemma {:induction false} PassedInOrder(db: Db, row: Item, rows: seq<Item>, clock: Clock)
    ensures |Passed(db, row, InOrder(rows, clock))| == |Passed(db, row, rows)|
  {
    if rows != [] {
      var front, last := rows[..|rows| - 1], rows[|rows| - 1];
      assert rows == front + [last];
      PassedInOrder(db, row, front, clock);
      PassedPlaced(db, row, InOrder(front, clock), clock, last);
      PassedAppend(db, row, InOrder(front, clock), [last]);
      PassedAppend(db, row, front, [last]);
    }
  }

  lemma OthersInRange(db: Db, row: Item, index: Index, name: string)
    ensures |Passed(db, row, Range(db.items, index, name))| == |Others(db, row, index, name)|
  {
    PassedInOrder(db, row, Filter(db.items, (x: Item) => Reaches(x, index, name)), index.clock);
    FilterTwice(
      db.items, (x: Item) => Reaches(x, index, name), (x: Item) => !Qualifies(db, row, x),
      (x: Item) => Reaches(x, index, name) && !Qualifies(db, row, x));
  }

  lemma {:induction false} FilterTwice(rows: seq<Item>, p: Item -> bool, q: Item -> bool, both: Item -> bool)
    requires forall x :: both(x) <==> p(x) && q(x)
    ensures Filter(Filter(rows, p), q) == Filter(rows, both)
  {
    if rows != [] {
      FilterTwice(rows[1..], p, q, both);
      if p(rows[0]) {
        assert ([rows[0]] + Filter(rows[1..], p))[1..] == Filter(rows[1..], p);
      }
    }
  }

  lemma OneIsReadIn(db: Db, row: Item, other: Item, index: Index, name: string) returns (x: Item)
    requires other in db.items && Qualifies(db, row, other) && Reaches(other, index, name) && name in NamesOf(row)
    requires |Others(db, row, index, name)| < TICKET_ROWS_READ
    requires
      index in {
        Index(false, RejectedAt), Index(true, RejectedAt), Index(false, PlanRejectedAt), Index(true, PlanRejectedAt)}
    ensures x in db.items && Qualifies(db, row, x) && Reaches(x, index, name)
    ensures At(x, index.clock) <= At(other, index.clock)
    ensures x in RowsNamed(db.items, NamesOf(row))
  {
    OthersInRange(db, row, index, name);
    RangeShowsOne(db, row, index, name, other);
    x :| x in RowsIn(db.items, index, name) && Qualifies(db, row, x) && At(x, index.clock) <= At(other, index.clock);
    assert x in Range(db.items, index, name);
    assert x in RejectedRowsNamed(db.items, name);
    RowsNamedExactly(db.items, NamesOf(row));
  }

  /** A row that holds the plan puts a row at least as early among those read. */
  lemma OneIsRead(db: Db, row: Item, other: Item) returns (x: Item)
    requires FewOthers(db, row) && Holds(db, row, other) && forall y <- db.items :: TimesOrdered(y)
    ensures x in RowsNamed(db.items, NamesOf(row)) && Qualifies(db, row, x) && At(x, First) <= At(other, First)
  {
    var alias := !(other.claimKey.Some? && other.claimKey.value in NamesOf(row));
    var index := Index(alias, if other.rejectedAt.Some? then RejectedAt else PlanRejectedAt);
    x := OneIsReadIn(db, row, other, index, NameIn(other, index).value);
    assert TimesOrdered(x);
  }

  lemma LiveIsEarliest(db: Db, row: Item, live: Option<Item>)
    requires live == FirstQualifying(db, row, Candidates(db.items, NamesOf(row))) && DistinctIds(db.items)
    ensures live.Some? ==> Holds(db, row, live.value)
    ensures (forall y <- db.items :: TimesOrdered(y)) && FewOthers(db, row) ==>
              forall other | Holds(db, row, other) :: live.Some? && At(live.value, First) <= At(other, First)
  {
    var names := NamesOf(row);
    var read := Candidates(db.items, names);
    CandidatesExactly(db.items, names);
    RowsNamedExactly(db.items, names);
    FirstAt(db, row, read);
    if (forall y <- db.items :: TimesOrdered(y)) && FewOthers(db, row) {
      forall other | Holds(db, row, other)
        ensures live.Some? && At(live.value, First) <= At(other, First)
      {
        var x := OneIsRead(db, row, other);
        FirstOfOrdered(db, row, read, x);
      }
    }
  }

  lemma FirstOfOrdered(db: Db, row: Item, rows: seq<Item>, x: Item)
    requires Ordered(rows, First) && x in rows && Qualifies(db, row, x)
    ensures FirstQualifying(db, row, rows).Some? && At(FirstQualifying(db, row, rows).value, First) <= At(x, First)
  {
    FirstAt(db, row, rows);
    var i :| FirstIs(db, row, rows, i) && rows[i] == FirstQualifying(db, row, rows).value;
    var k :| 0 <= k < |rows| && rows[k] == x;
    assert i <= k;
  }

  predicate Answers(db: Db, row: Item) {
    && OwnerOf(db, row.agent).GetOr("") != ""
    && |OwnerRetirements(db, OwnerOf(db, row.agent).GetOr(""))| <= RETIREMENT_READ_LIMIT
  }

  /**
   * Whatever is answered is a rejection that holds the plan, of a live row or of a retired employee's; no bound is
   * needed for that.
   */
  lemma AnswerHolds(db: Db, row: Item)
    requires DistinctIds(db.items)
    ensures
      var answer := FirstTicketRejection(db, row);
      answer.Ok? && answer.value.Some? ==>
        match answer.value.value
        case Live(item) => Holds(db, row, item)
        case Retired(on) => HoldsRetired(db, row, on)
  {
    if NamesOf(row) == [] {
      NothingWithoutNames(db, row);
    } else if Answers(db, row) {
      var live := FirstQualifying(db, row, Candidates(db.items, NamesOf(row)));
      var retired := Earliest(AllRetired(OwnerRetirements(db, OwnerOf(db, row.agent).value)), NamesOf(row));
      LiveIsEarliest(db, row, live);
      RetiredIsEarliest(db, row, retired);
    }
  }

  /**
   * The walk is refused exactly for a named row of an owner with too many retirements to read; a row with no name, or
   * of no owner, is held by nothing.
   */
  lemma RefusedExactly(db: Db, row: Item)
    ensures
      var owner := if row.agent in db.owners then db.owners[row.agent] else "";
      var named := row.claimKey.Some? || row.claimAlias.Some?;
      && (FirstTicketRejection(db, row).Err? <==>
            && named && owner != ""
            && |Filter(db.retirements, (r: Retirement) => r.owner == owner)| > RETIREMENT_READ_LIMIT)
      && (!named || owner == "" ==> FirstTicketRejection(db, row) == Ok(None))
  {
    if row.claimKey.Some? { assert NamesOf(row)[0] == row.claimKey.value; }
    if row.claimAlias.Some? { assert NamesOf(row) != []; }
  }

  /**
   * What a scan of the whole table would answer: the earliest rejection of all that hold the plan, live or retired, and
   * none exactly when there is none.
   */
  ghost predicate IsEarliest(db: Db, row: Item, answer: Option<Rejection>) {
    && (answer.None? <==> (forall x :: !Holds(db, row, x)) && forall on :: !HoldsRetired(db, row, on))
    && (answer.Some? && answer.value.Live? ==> Holds(db, row, answer.value.item))
    && (answer.Some? && answer.value.Retired? ==> HoldsRetired(db, row, answer.value.on))
    && (answer.Some? ==> forall x | Holds(db, row, x) :: TimeOf(answer.value) <= At(x, First))
    && (answer.Some? ==> forall on | HoldsRetired(db, row, on) :: TimeOf(answer.value) <= on.rejection.rejectedAt)
  }

  /**
   * Behind fewer than the bound of others in each range, the bounded reads find what a scan of the whole table would.
   */
  lemma EarliestIsFound(db: Db, row: Item)
    requires DistinctIds(db.items) && Answers(db, row) && FewOthers(db, row) && forall y <- db.items :: TimesOrdered(y)
    ensures FirstTicketRejection(db, row).Ok? && IsEarliest(db, row, FirstTicketRejection(db, row).value)
  {
    if NamesOf(row) == [] {
      NothingWithoutNames(db, row);
    } else {
      var live := FirstQualifying(db, row, Candidates(db.items, NamesOf(row)));
      var retired := Earliest(AllRetired(OwnerRetirements(db, OwnerOf(db, row.agent).value)), NamesOf(row));
      LiveIsEarliest(db, row, live);
      RetiredIsEarliest(db, row, retired);
      SoonerIsEarliest(db, row, live, retired);
    }
  }

  /** A retired employee's rejection is answered only when it is earlier than every live row that holds the plan. */
  lemma TiesGoToTheLive(db: Db, row: Item)
    requires DistinctIds(db.items) && Answers(db, row) && FewOthers(db, row) && forall y <- db.items :: TimesOrdered(y)
    ensures
      var answer := FirstTicketRejection(db, row);
      answer.Ok? && answer.value.Some? && answer.value.value.Retired? ==>
        forall x | Holds(db, row, x) :: answer.value.value.on.rejection.rejectedAt < At(x, First)
  {
    if NamesOf(row) == [] {
      NothingWithoutNames(db, row);
    } else {
      LiveIsEarliest(db, row, FirstQualifying(db, row, Candidates(db.items, NamesOf(row))));
    }
  }

  lemma NothingWithoutNames(db: Db, row: Item)
    requires NamesOf(row) == []
    ensures FirstTicketRejection(db, row) == Ok(None)
    ensures forall x :: !Holds(db, row, x)
    ensures forall on :: !HoldsRetired(db, row, on)
  {
  }

  lemma RetiredIsEarliest(db: Db, row: Item, retired: Option<RetiredOn>)
    requires Answers(db, row)
    requires retired == Earliest(AllRetired(OwnerRetirements(db, OwnerOf(db, row.agent).value)), NamesOf(row))
    ensures retired.Some? ==> HoldsRetired(db, row, retired.value)
    ensures
      forall on | HoldsRetired(db, row, on) ::
        retired.Some? && retired.value.rejection.rejectedAt <= on.rejection.rejectedAt
  {
    EarliestExactly(AllRetired(OwnerRetirements(db, OwnerOf(db, row.agent).value)), NamesOf(row));
  }

  lemma SoonerIsEarliest(db: Db, row: Item, live: Option<Item>, retired: Option<RetiredOn>)
    requires live.Some? ==> Holds(db, row, live.value)
    requires forall x | Holds(db, row, x) :: live.Some? && At(live.value, First) <= At(x, First)
    requires retired.Some? ==> HoldsRetired(db, row, retired.value)
    requires
      forall on | HoldsRetired(db, row, on) ::
        retired.Some? && retired.value.rejection.rejectedAt <= on.rejection.rejectedAt
    ensures IsEarliest(db, row, Sooner(live, retired))
  {
  }

  // ---------------------------------------------------------------- exactly when the reads find the earliest

  /**
   * Whether a row stands among the first of an index range: fewer than the bound of rows before it, of whatever
   * owner.
   */
  predicate Among(items: seq<Item>, index: Index, name: string, x: Item) {
    exists i :: 0 <= i < TICKET_ROWS_READ && i < |Range(items, index, name)| && Range(items, index, name)[i] == x
  }

  /** Whether it does in any of the four ranges of a name. */
  predicate AmongNamed(items: seq<Item>, name: string, x: Item) {
    || Among(items, Index(false, RejectedAt), name, x) || Among(items, Index(true, RejectedAt), name, x)
    || Among(items, Index(false, PlanRejectedAt), name, x) || Among(items, Index(true, PlanRejectedAt), name, x)
  }

  lemma AmongExactly(items: seq<Item>, index: Index, name: string, x: Item)
    ensures x in RowsIn(items, index, name) <==> Among(items, index, name, x)
  {
    var rows, read := Range(items, index, name), RowsIn(items, index, name);
    assert forall i :: 0 <= i < |read| ==> read[i] == rows[i];
    if x in read {
      var i :| 0 <= i < |read| && read[i] == x;
      assert rows[i] == x;
    }
    if Among(items, index, name, x) {
      var i :| 0 <= i < TICKET_ROWS_READ && i < |rows| && rows[i] == x;
      assert read[i] == x;
    }
  }

  lemma {:induction false} AmongNamedExactly(items: seq<Item>, names: seq<string>, x: Item)
    ensures x in RowsNamed(items, names) <==> exists name <- names :: AmongNamed(items, name, x)
  {
    if names != [] {
      var front, last := names[..|names| - 1], names[|names| - 1];
      assert names == front + [last];
      AmongNamedExactly(items, front, x);
      AmongExactly(items, Index(false, RejectedAt), last, x);
      AmongExactly(items, Index(true, RejectedAt), last, x);
      AmongExactly(items, Index(false, PlanRejectedAt), last, x);
      AmongExactly(items, Index(true, PlanRejectedAt), last, x);
      assert last in names && forall name <- front :: name in names;
    }
  }

  /** A row that holds the plan, no other earlier. */
  ghost predicate LeastHolds(db: Db, row: Item, x: Item) {
    Holds(db, row, x) && forall y | Holds(db, row, y) :: At(x, First) <= At(y, First)
  }

  /** No live row holds the plan, or an earliest one stands among the first of some range read. */
  ghost predicate LeastIsShown(db: Db, row: Item) {
    || (forall x :: !Holds(db, row, x))
    || exists x <- db.items :: LeastHolds(db, row, x) && exists name <- NamesOf(row) :: AmongNamed(db.items, name, x)
  }

  /** A retired employee's rejection no live one is earlier than. */
  ghost predicate RetiredIsFirst(db: Db, row: Item) {
    exists on <- AllRetired(OwnerRetirements(db, OwnerOf(db, row.agent).GetOr(""))) ::
      HoldsRetired(db, row, on) && forall x | Holds(db, row, x) :: on.rejection.rejectedAt <= At(x, First)
  }

  ghost predicate LiveIsLeast(db: Db, row: Item, live: Option<Item>) {
    if live.None? then forall x :: !Holds(db, row, x) else LeastHolds(db, row, live.value)
  }

  lemma LiveIsLeastExactly(db: Db, row: Item, live: Option<Item>)
    requires DistinctIds(db.items) && live == FirstQualifying(db, row, Candidates(db.items, NamesOf(row)))
    ensures LiveIsLeast(db, row, live) <==> LeastIsShown(db, row)
  {
    var read := Candidates(db.items, NamesOf(row));
    CandidatesExactly(db.items, NamesOf(row));
    LiveIsEarliest(db, row, live);
    FirstAt(db, row, read);
    if live.Some? {
      AmongNamedExactly(db.items, NamesOf(row), live.value);
    }
    if x: Item :| LeastHolds(db, row, x) && exists name <- NamesOf(row) :: AmongNamed(db.items, name, x) {
      AmongNamedExactly(db.items, NamesOf(row), x);
      FirstOfOrdered(db, row, read, x);
    }
  }

  lemma SoonerIsEarliestExactly(db: Db, row: Item, live: Option<Item>, retired: Option<RetiredOn>)
    requires Answers(db, row) && (live.Some? ==> Holds(db, row, live.value))
    requires retired.Some? ==> HoldsRetired(db, row, retired.value)
    requires forall on | HoldsRetired(db, row, on) ::
      retired.Some? && retired.value.rejection.rejectedAt <= on.rejection.rejectedAt
    ensures IsEarliest(db, row, Sooner(live, retired)) <==> LiveIsLeast(db, row, live) || RetiredIsFirst(db, row)
  {
    if LiveIsLeast(db, row, live) {
      SoonerIsEarliest(db, row, live, retired);
    }
    var sooner := Sooner(live, retired);
    if retired.Some? && IsEarliest(db, row, sooner) && sooner == Some(Retired(retired.value)) {
      assert HoldsRetired(db, row, retired.value);
    }
  }

  /**
   * The bounded reads answer what a scan of the whole table would if and only if an earliest live row that holds the
   * plan stands among the first of some range of some name, or none holds it, or a retired employee's rejection is as
   * early.
   */
  lemma FoundExactlyWhenShown(db: Db, row: Item)
    requires DistinctIds(db.items) && Answers(db, row)
    ensures FirstTicketRejection(db, row).Ok?
    ensures
      IsEarliest(db, row, FirstTicketRejection(db, row).value) <==> LeastIsShown(db, row) || RetiredIsFirst(db, row)
  {
    if NamesOf(row) == [] {
      NothingWithoutNames(db, row);
    } else {
      FoundWithNames(db, row);
    }
  }

  lemma FoundWithNames(db: Db, row: Item)
    requires DistinctIds(db.items) && Answers(db, row) && NamesOf(row) != []
    ensures FirstTicketRejection(db, row).Ok?
    ensures
      IsEarliest(db, row, FirstTicketRejection(db, row).value) <==> LeastIsShown(db, row) || RetiredIsFirst(db, row)
  {
    var live := FirstQualifying(db, row, Candidates(db.items, NamesOf(row)));
    var retired := Earliest(AllRetired(OwnerRetirements(db, OwnerOf(db, row.agent).value)), NamesOf(row));
    assert FirstTicketRejection(db, row) == Ok(Sooner(live, retired));
    LiveIsEarliest(db, row, live);
    RetiredIsEarliest(db, row, retired);
    LiveIsLeastExactly(db, row, live);
    SoonerIsEarliestExactly(db, row, live, retired);
  }

  // ---------------------------------------------------------------- exactly at the bound

  lemma {:induction false} AlreadyInOrder(rows: seq<Item>, clock: Clock)
    requires Ordered(rows, clock)
    ensures InOrder(rows, clock) == rows
  {
    if rows != [] {
      var front, last := rows[..|rows| - 1], rows[|rows| - 1];
      assert rows == front + [last];
      AlreadyInOrder(front, clock);
      assert front != [] ==> front[|front| - 1] == rows[|rows| - 2];
    }
  }

  lemma {:induction false} AllKept(rows: seq<Item>, p: Item -> bool)
    requires forall x <- rows :: p(x)
    ensures Filter(rows, p) == rows
  {
    if rows != [] {
      AllKept(rows[1..], p);
    }
  }

  const BY_KEY: Index := Index(false, RejectedAt)

  /** A table whose rejections all bear one key, strangers' first, the owner's own last. */
  ghost predicate Behind(db: Db, row: Item, name: string, strangers: seq<Item>, ours: Item) {
    && db.items == strangers + [ours] && db.retirements == [] && NamesOf(row) == [name] && Answers(db, row)
    && Ordered(db.items, RejectedAt)
    && (forall x <- db.items ::
          x.claimKey == Some(name) && x.claimAlias.None? && x.rejectedAt.Some? && x.planRejectedAt.None?)
    && (forall x <- strangers :: !Qualifies(db, row, x))
    && Qualifies(db, row, ours)
  }

  lemma BehindRange(db: Db, row: Item, name: string, strangers: seq<Item>, ours: Item)
    requires Behind(db, row, name, strangers, ours)
    ensures Range(db.items, BY_KEY, name) == db.items
  {
    AllKept(db.items, (x: Item) => Reaches(x, BY_KEY, name));
    AlreadyInOrder(db.items, RejectedAt);
  }

  lemma BehindOthers(db: Db, row: Item, name: string, strangers: seq<Item>, ours: Item)
    requires Behind(db, row, name, strangers, ours)
    ensures |Others(db, row, BY_KEY, name)| == |strangers|
  {
    BehindRange(db, row, name, strangers, ours);
    OthersInRange(db, row, BY_KEY, name);
    AllKept(strangers, (x: Item) => !Qualifies(db, row, x));
    PassedAppend(db, row, strangers, [ours]);
  }

  lemma NothingElsewhere(db: Db, row: Item, name: string, strangers: seq<Item>, ours: Item, index: Index)
    requires Behind(db, row, name, strangers, ours) && (index.alias || index.clock == PlanRejectedAt)
    ensures forall x :: x !in RowsIn(db.items, index, name)
  {
    forall x | x in db.items
      ensures !Reaches(x, index, name)
    {
    }
    assert forall x <- RowsIn(db.items, index, name) :: x in Range(db.items, index, name);
  }

  lemma BehindRead(db: Db, row: Item, name: string, strangers: seq<Item>, ours: Item)
    requires Behind(db, row, name, strangers, ours) && |strangers| >= TICKET_ROWS_READ
    ensures forall x <- RejectedRowsNamed(db.items, name) :: x in strangers
  {
    BehindRange(db, row, name, strangers, ours);
    NothingElsewhere(db, row, name, strangers, ours, Index(true, RejectedAt));
    NothingElsewhere(db, row, name, strangers, ours, Index(false, PlanRejectedAt));
    NothingElsewhere(db, row, name, strangers, ours, Index(true, PlanRejectedAt));
    assert RowsIn(db.items, BY_KEY, name) == strangers[..TICKET_ROWS_READ];
  }

  lemma NothingRead(db: Db, row: Item, name: string)
    requires NamesOf(row) == [name] && Answers(db, row) && db.retirements == []
    requires forall x <- RejectedRowsNamed(db.items, name) :: !Qualifies(db, row, x)
    ensures FirstTicketRejection(db, row) == Ok(None)
  {
    FirstAt(db, row, Candidates(db.items, NamesOf(row)));
    assert NamesOf(row)[..0] == [];
    assert RowsNamed(db.items, NamesOf(row)) == RejectedRowsNamed(db.items, name);
    assert AllRetired(OwnerRetirements(db, OwnerOf(db, row.agent).value)) == [];
  }

  function Stranger(i: nat): Item {
    Item(i, 3, Some("T"), None, Some(i + 1), None, false)
  }

  /**
   * Behind exactly as many others as the bound the owner's own rejection is missed: it stands in the table, and the
   * answer is none.
   */
  lemma MissedAtTheBound() returns (db: Db, row: Item, ours: Item)
    ensures DistinctIds(db.items) && Answers(db, row) && forall x <- db.items :: TimesOrdered(x)
    ensures Holds(db, row, ours) && |Others(db, row, BY_KEY, "T")| == TICKET_ROWS_READ
    ensures FirstTicketRejection(db, row) == Ok(None)
  {
    var strangers := seq(TICKET_ROWS_READ, i requires 0 <= i => Stranger(i));
    row := Item(200, 1, Some("T"), None, None, None, false);
    ours := Item(100, 2, Some("T"), None, Some(99), None, false);
    db := Db(strangers + [ours], map[1 := "us", 2 := "us", 3 := "them"], []);
    Missed(db, row, strangers, ours);
  }

  lemma StrangersFirst(db: Db, strangers: seq<Item>, ours: Item)
    requires |strangers| == TICKET_ROWS_READ && forall i :: 0 <= i < |strangers| ==> strangers[i] == Stranger(i)
    requires ours == Item(100, 2, Some("T"), None, Some(99), None, false) && db.items == strangers + [ours]
    ensures DistinctIds(db.items) && Ordered(db.items, RejectedAt)
    ensures forall x <- strangers :: x.id < 100 && x.agent == 3
    ensures
      forall x <- db.items ::
        x.claimKey == Some("T") && x.claimAlias.None? && x.rejectedAt.Some? && x.planRejectedAt.None?
  {
  }

  lemma Missed(db: Db, row: Item, strangers: seq<Item>, ours: Item)
    requires |strangers| == TICKET_ROWS_READ && forall i :: 0 <= i < |strangers| ==> strangers[i] == Stranger(i)
    requires row == Item(200, 1, Some("T"), None, None, None, false)
    requires ours == Item(100, 2, Some("T"), None, Some(99), None, false)
    requires db == Db(strangers + [ours], map[1 := "us", 2 := "us", 3 := "them"], [])
    ensures DistinctIds(db.items) && Answers(db, row) && forall x <- db.items :: TimesOrdered(x)
    ensures Holds(db, row, ours) && |Others(db, row, BY_KEY, "T")| == TICKET_ROWS_READ
    ensures FirstTicketRejection(db, row) == Ok(None)
  {
    StrangersFirst(db, strangers, ours);
    assert OwnerRetirements(db, "us") == [];
    assert Behind(db, row, "T", strangers, ours);
    BehindOthers(db, row, "T", strangers, ours);
    BehindRead(db, row, "T", strangers, ours);
    NothingRead(db, row, "T");
  }

  // ---------------------------------------------------------------- the reads as loops

  lemma EarliestStep(rejections: seq<RetiredOn>, on: RetiredOn, names: seq<string>)
    ensures
      var before := Earliest(rejections, names);
      Earliest(rejections + [on], names) ==
        if Names(on.rejection, names) && Earlier(on, before) then Some(on) else before
  {
    assert (rejections + [on])[..|rejections + [on]| - 1] == rejections;
  }

  method FindAmong(first: Option<RetiredOn>, retirement: Retirement, names: seq<string>, ghost before: seq<RetiredOn>)
    returns (earliest: Option<RetiredOn>)
    requires first == Earliest(before, names)
    ensures earliest == Earliest(before + RejectionsOf(retirement), names)
  {
    ghost var read := before;
    earliest := first;
    for j := 0 to |retirement.rejections|
      invariant read == before + RejectionsOf(retirement)[..j]
      invariant earliest == Earliest(read, names)
    {
      var on := RetiredOn(retirement.agent, retirement.rejections[j]);
      EarliestStep(read, on, names);
      if Names(on.rejection, names) {
        if earliest.None? || on.rejection.rejectedAt < earliest.value.rejection.rejectedAt {
          earliest := Some(on);
        }
      }
      read := read + [on];
    }
    assert read == before + RejectionsOf(retirement);
  }

  method FindRetired(kept: seq<Retirement>, names: seq<string>) returns (first: Option<RetiredOn>)
    ensures first == Earliest(AllRetired(kept), names)
  {
    first := None;
    for i := 0 to |kept|
      invariant first == Earliest(AllRetired(kept[..i]), names)
    {
      first := FindAmong(first, kept[i], names, AllRetired(kept[..i]));
      assert kept[..i + 1][..i] == kept[..i];
    }
    assert kept[..|kept|] == kept;
  }

  /** The walk over the candidates, each employee's owner read once. */
  method FindLive(db: Db, row: Item, candidates: seq<Item>) returns (live: Option<Item>)
    ensures live == FirstQualifying(db, row, candidates)
  {
    var owner := OwnerOf(db, row.agent);
    var owners: map<nat, Option<string>> := map[];
    for i := 0 to |candidates|
      invariant forall agent <- owners :: owners[agent] == OwnerOf(db, agent)
      invariant FirstQualifying(db, row, candidates) == FirstQualifying(db, row, candidates[i..])
    {
      var other := candidates[i];
      if other.id == row.id || RejectionTime(other).None? || other.trial { continue; }
      if other.agent !in owners {
        owners := owners[other.agent := OwnerOf(db, other.agent)];
      }
      if owners[other.agent] != owner { continue; }
      return Some(other);
    }
    live := None;
  }

  method FindFirstRejection(db: Db, row: Item) returns (answer: Result<Option<Rejection>, string>)
    ensures answer == FirstTicketRejection(db, row)
  {
    var names := NamesOf(row);
    if |names| == 0 { return Ok(None); }
    var owner := OwnerOf(db, row.agent);
    if owner.GetOr("") == "" { return Ok(None); }
    var live := FindLive(db, row, Candidates(db.items, names));
    var kept := OwnerRetirements(db, owner.value);
    if |kept| > RETIREMENT_READ_LIMIT { return Err("too many retired employees"); }
    var retired := FindRetired(kept, names);
    if retired.Some? && (live.None? || retired.value.rejection.rejectedAt < At(live.value, First)) {
      return Ok(Some(Retired(retired.value)));
    }
    answer := Ok(if live.Some? then Some(Live(live.value)) else None);
  }
}
