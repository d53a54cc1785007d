/** Permission grants and the append-only record of them (convex/agents.ts). */
module Grants {
  import opened Prelude

  datatype Source = FromDeploy | FromSurface | FromSkill | FromManager

  datatype Grant = Grant(agent: nat, scope: string, source: Source, createdAt: Time, revokedAt: Option<Time>)

  datatype Event =
    | Granted(agent: nat, scope: string, source: Source, at: Time)
    | Revoked(agent: nat, scope: string, at: Time)

  /** The employees, the grant rows in the order they were inserted, and the record. */
  datatype Db = Db(agents: set<nat>, grants: seq<Grant>, events: seq<Event>)

  const EMPTY := Db({}, [], [])

  // ---------------------------------------------------------------- the transactions

  function GrantsOf(grants: seq<Grant>, agent: nat, scope: string): seq<Grant> {
    Filter(grants, (g: Grant) => g.agent == agent && g.scope == scope)
  }

  function EventsOf(events: seq<Event>, agent: nat, scope: string): seq<Event> {
    Filter(events, (e: Event) => e.agent == agent && e.scope == scope)
  }

  predicate Holds(db: Db, agent: nat, scope: string) {
    exists g <- db.grants :: g.agent == agent && g.scope == scope && g.revokedAt.None?
  }

  /** A row and its event, whatever stands already: the deploy's own insert. */
  function Inserted(db: Db, agent: nat, scope: string, source: Source, now: Time): Db {
    db.(
      grants := db.grants + [Grant(agent, scope, source, now, None)],
      events := db.events + [Granted(agent, scope, source, now)])
  }

  function InsertEach(db: Db, agent: nat, scopes: seq<string>, now: Time): Db {
    if scopes == [] then db
    else Inserted(InsertEach(db, agent, scopes[..|scopes| - 1], now), agent, scopes[|scopes| - 1], FromDeploy, now)
  }

  function InitialScopes(mock: bool): seq<string> {
    if mock then ["boss:message", "docs:read", "spreadsheet:read", "social:read", "ticket:read", "slack:read"]
    else ["boss:message", "docs:read"]
  }

  /** A new employee with the scopes every one starts with; the table gives it an id of its own. */
  function Deploy(db: Db, agent: nat, mock: bool, now: Time): Db {
    if agent in db.agents then db
    else InsertEach(db.(agents := db.agents + {agent}), agent, InitialScopes(mock), now)
  }

  function GrantScope(db: Db, agent: nat, scope: string, source: Source, now: Time): Db {
    if Holds(db, agent, scope) then db else Inserted(db, agent, scope, source, now)
  }

  /** The manager's grant of several scopes: all of them, or none when one is blank. */
  function GrantScopes(db: Db, agent: nat, scopes: seq<string>, now: Time): Result<Db, string> {
    if scopes == [] then Ok(db)
    else
      var before := GrantScopes(db, agent, scopes[..|scopes| - 1], now);
      if before.Err? then before
      else if Blank(scopes[|scopes| - 1]) then Err("permission scope must not be empty")
      else Ok(GrantScope(before.value, agent, scopes[|scopes| - 1], FromManager, now))
  }

  function Ended(grant: Grant, agent: nat, scope: string, now: Time): Grant {
    if grant.agent == agent && grant.scope == scope && grant.revokedAt.None? then grant.(revokedAt := Some(now))
    else grant
  }

  function EndEach(grants: seq<Grant>, agent: nat, scope: string, now: Time): (r: seq<Grant>)
    ensures |r| == |grants| && forall i :: 0 <= i < |r| ==> r[i] == Ended(grants[i], agent, scope, now)
  {
    Map(grants, g => Ended(g, agent, scope, now))
  }

  /** How many rows of a scope stand. */
  function ActiveCount(grants: seq<Grant>, agent: nat, scope: string): nat {
    |Filter(grants, (g: Grant) => g.agent == agent && g.scope == scope && g.revokedAt.None?)|
  }

  function RevokeScope(db: Db, agent: nat, scope: string, now: Time): Result<Db, string> {
    if Blank(scope) then Err("permission scope must not be empty")
    else if !Holds(db, agent, scope) then Ok(db)
    else Ok(db.(grants := EndEach(db.grants, agent, scope, now), events := db.events + [Revoked(agent, scope, now)]))
  }

  datatype Step =
    | DoDeploy(agent: nat, mock: bool)
    | DoGrant(agent: nat, scope: string, source: Source)
    | DoGrantScopes(agent: nat, scopes: seq<string>)
    | DoRevoke(agent: nat, scope: string)

  datatype Timed = Timed(at: Time, step: Step)

  /** A step about no employee, and one that throws, change nothing. */
  function Apply(db: Db, timed: Timed): Db {
    if !timed.step.DoDeploy? && timed.step.agent !in db.agents then db
    else
      match timed.step
      case DoDeploy(agent, mock) => Deploy(db, agent, mock, timed.at)
      case DoGrant(agent, scope, source) => GrantScope(db, agent, scope, source, timed.at)
      case DoGrantScopes(agent, scopes) => Settled(db, GrantScopes(db, agent, scopes, timed.at))
      case DoRevoke(agent, scope) => Settled(db, RevokeScope(db, agent, scope, timed.at))
  }

  function Settled(db: Db, outcome: Result<Db, string>): Db {
    if outcome.Ok? then outcome.value else db
  }

  function Run(db: Db, steps: seq<Timed>): Db {
    if steps == [] then db else Apply(Run(db, steps[..|steps| - 1]), steps[|steps| - 1])
  }

  // ---------------------------------------------------------------- replaying the record

  /** One event of the record, acted on. */
  function Replayed(grants: seq<Grant>, event: Event): seq<Grant> {
    match event
    case Granted(agent, scope, source, at) => grants + [Grant(agent, scope, source, at, None)]
    case Revoked(agent, scope, at) => EndEach(grants, agent, scope, at)
  }

  function Replay(events: seq<Event>): seq<Grant> {
    if events == [] then [] else Replayed(Replay(events[..|events| - 1]), events[|events| - 1])
  }

  lemma ReplayStep(events: seq<Event>, event: Event)
    ensures Replay(events + [event]) == Replayed(Replay(events), event)
  {
    assert (events + [event])[..|events + [event]| - 1] == events;
  }

  lemma AppendShifts<T>(a: seq<T>, b: seq<T>)
    requires a != []
    ensures a + b != [] && (a + b)[0] == a[0] && (a + b)[1..] == a[1..] + b
  {
  }

  lemma AppendAssociates<T>(x: T, y: seq<T>, z: seq<T>)
    ensures ([x] + y) + z == [x] + (y + z)
  {
  }

  lemma {:induction false} FilterAppend<T(!new)>(a: seq<T>, b: seq<T>, p: T -> bool)
    ensures Filter(a + b, p) == Filter(a, p) + Filter(b, p)
  {
    if a == [] {
      assert a + b == b;
    } else {
      FilterAppend(a[1..], b, p);
      AppendShifts(a, b);
      AppendAssociates(a[0], Filter(a[1..], p), Filter(b, p));
    }
  }

  lemma GrantAppended(grants: seq<Grant>, grant: Grant, agent: nat, scope: string)
    ensures
      GrantsOf(grants + [grant], agent, scope) ==
        if grant.agent == agent && grant.scope == scope then GrantsOf(grants, agent, scope) + [grant]
        else GrantsOf(grants, agent, scope)
  {
    FilterAppend(grants, [grant], (g: Grant) => g.agent == agent && g.scope == scope);
  }

  lemma EventAppended(events: seq<Event>, event: Event, agent: nat, scope: string)
    ensures
      EventsOf(events + [event], agent, scope) ==
        if event.agent == agent && event.scope == scope then EventsOf(events, agent, scope) + [event]
        else EventsOf(events, agent, scope)
  {
    FilterAppend(events, [event], (e: Event) => e.agent == agent && e.scope == scope);
  }

  lemma {:induction false} EndedOf(grants: seq<Grant>, agent: nat, scope: string, now: Time, a: nat, s: string)
    ensures
      GrantsOf(EndEach(grants, agent, scope, now), a, s) ==
        if a == agent && s == scope then EndEach(GrantsOf(grants, a, s), agent, scope, now) else GrantsOf(grants, a, s)
  {
    if grants != [] {
      var front, last := grants[..|grants| - 1], grants[|grants| - 1];
      assert grants == front + [last];
      EndedOf(front, agent, scope, now, a, s);
      GrantAppended(front, last, a, s);
      assert EndEach(grants, agent, scope, now) == EndEach(front, agent, scope, now) + [Ended(last, agent, scope, now)];
      GrantAppended(EndEach(front, agent, scope, now), Ended(last, agent, scope, now), a, s);
    }
  }

  /** A scope's rows are what replaying the scope's own events gives. */
  lemma {:induction false} ReplayOf(events: seq<Event>, agent: nat, scope: string)
    ensures GrantsOf(Replay(events), agent, scope) == Replay(EventsOf(events, agent, scope))
  {
    if events != [] {
      var front, last := events[..|events| - 1], events[|events| - 1];
      assert events == front + [last];
      ReplayOf(front, agent, scope);
      EventAppended(front, last, agent, scope);
      ReplayStep(EventsOf(front, agent, scope), last);
      match last
      case Granted(a, s, source, at) => GrantAppended(Replay(front), Grant(a, s, source, at, None), agent, scope);
      case Revoked(a, s, at) => EndedOf(Replay(front), a, s, at, agent, scope);
    }
  }

  // ---------------------------------------------------------------- what an alternating record tells

  predicate LastIsGrant(events: seq<Event>) {
    events != [] && events[|events| - 1].Granted?
  }

  /** Granted first, and each event the other kind than the one before it. */
  predicate Alternates(events: seq<Event>) {
    || events == []
    || (Alternates(events[..|events| - 1]) && (LastIsGrant(events) <==> !LastIsGrant(events[..|events| - 1])))
  }

  lemma {:induction false} AlternatesByParity(events: seq<Event>)
    requires Alternates(events)
    ensures forall i :: 0 <= i < |events| ==> (events[i].Granted? <==> i % 2 == 0)
  {
    if events != [] {
      var front := events[..|events| - 1];
      AlternatesByParity(front);
      assert forall i :: 0 <= i < |front| ==> front[i] == events[i];
      assert front != [] ==> (front[|front| - 1].Granted? <==> (|front| - 1) % 2 == 0);
    }
  }

  /** The newest grant of an alternating record. */
  function NewestGrant(events: seq<Event>): Event
    requires Alternates(events) && events != []
  {
    if LastIsGrant(events) then events[|events| - 1]
    else
      var front := events[..|events| - 1];
      assert LastIsGrant(front);
      front[|front| - 1]
  }

  /**
   * At most the last row is active, exactly while the last event is a grant; that row is the newest grant's, ended by
   * the revocation after it.
   */
  lemma {:induction false} ReplayTells(events: seq<Event>, agent: nat, scope: string)
    requires Alternates(events) && forall e <- events :: e.agent == agent && e.scope == scope
    ensures
      var grants := Replay(events);
      && (grants == [] <==> events == [])
      && (forall i :: 0 <= i < |grants| - 1 ==> grants[i].revokedAt.Some?)
      && (forall i :: 0 <= i < |grants| ==> grants[i].agent == agent && grants[i].scope == scope)
      && (events != [] ==>
            var newest := NewestGrant(events);
            newest.Granted? && grants[|grants| - 1] ==
              Grant(agent, scope, newest.source, newest.at,
                if LastIsGrant(events) then None else Some(events[|events| - 1].at)))
  {
    if events != [] {
      var front, last := events[..|events| - 1], events[|events| - 1];
      assert events == front + [last];
      assert last in events;
      assert forall e <- front :: e in events;
      ReplayTells(front, agent, scope);
    }
  }

  // ---------------------------------------------------------------- what every step keeps

  /** The table is its record replayed, and the record of every scope alternates. */
  ghost predicate Inv(db: Db) {
    && (forall g <- db.grants :: g.agent in db.agents)
    && db.grants == Replay(db.events)
    && forall agent, scope :: Alternates(EventsOf(db.events, agent, scope))
  }

  lemma HoldsExactly(db: Db, agent: nat, scope: string)
    requires Inv(db)
    ensures Holds(db, agent, scope) <==> LastIsGrant(EventsOf(db.events, agent, scope))
  {
    var events, grants := EventsOf(db.events, agent, scope), GrantsOf(db.grants, agent, scope);
    ReplayOf(db.events, agent, scope);
    assert Alternates(events);
    ReplayTells(events, agent, scope);
    assert Holds(db, agent, scope) <==> exists g <- grants :: g.revokedAt.None?;
    if grants != [] { assert grants[|grants| - 1] in grants; }
  }

  lemma EventKeepsAlternation(events: seq<Event>, event: Event)
    requires Alternates(events) && (event.Granted? <==> !LastIsGrant(events))
    ensures Alternates(events + [event])
  {
    assert (events + [event])[..|events + [event]| - 1] == events;
  }

  /** An event and what it does to the rows, when the scope's state is the one it changes. */
  lemma RecordKeepsInv(db: Db, event: Event)
    requires Inv(db) && event.agent in db.agents && (event.Granted? <==> !Holds(db, event.agent, event.scope))
    ensures Inv(db.(grants := Replayed(db.grants, event), events := db.events + [event]))
  {
    ReplayStep(db.events, event);
    forall a, s
      ensures Alternates(EventsOf(db.events + [event], a, s))
    {
      EventAppended(db.events, event, a, s);
      HoldsExactly(db, a, s);
      assert Alternates(EventsOf(db.events, a, s));
      if a == event.agent && s == event.scope { EventKeepsAlternation(EventsOf(db.events, a, s), event); }
    }
    var after := Replayed(db.grants, event);
    forall g | g in after
      ensures g.agent in db.agents
    {
      var i :| 0 <= i < |after| && after[i] == g;
      if i < |db.grants| { assert db.grants[i] in db.grants; }
    }
  }

  lemma GrantKeepsInv(db: Db, agent: nat, scope: string, source: Source, now: Time)
    requires Inv(db) && agent in db.agents
    ensures
      var after := GrantScope(db, agent, scope, source, now);
      Inv(after) && after.agents == db.agents && Holds(after, agent, scope)
  {
    if !Holds(db, agent, scope) {
      RecordKeepsInv(db, Granted(agent, scope, source, now));
      var after := GrantScope(db, agent, scope, source, now);
      assert after.grants[|db.grants|] in after.grants;
    }
  }

  lemma {:induction false} GrantScopesKeepsInv(db: Db, agent: nat, scopes: seq<string>, now: Time)
    requires Inv(db) && agent in db.agents && GrantScopes(db, agent, scopes, now).Ok?
    ensures var after := GrantScopes(db, agent, scopes, now).value; Inv(after) && after.agents == db.agents
  {
    if scopes != [] {
      GrantScopesKeepsInv(db, agent, scopes[..|scopes| - 1], now);
      var before := GrantScopes(db, agent, scopes[..|scopes| - 1], now).value;
      GrantKeepsInv(before, agent, scopes[|scopes| - 1], FromManager, now);
    }
  }

  predicate NoRepeats(scopes: seq<string>) {
    forall i, j :: 0 <= i < j < |scopes| ==> scopes[i] != scopes[j]
  }

  /** The scopes every employee starts with are granted once each. */
  lemma {:induction false} InsertEachKeepsInv(db: Db, agent: nat, scopes: seq<string>, now: Time)
    requires Inv(db) && agent in db.agents && NoRepeats(scopes) && forall g <- db.grants :: g.agent != agent
    ensures
      var after := InsertEach(db, agent, scopes, now);
      Inv(after) && after.agents == db.agents && forall g <- after.grants :: g.agent == agent ==> g.scope in scopes
  {
    if scopes != [] {
      var front, last := scopes[..|scopes| - 1], scopes[|scopes| - 1];
      assert scopes == front + [last];
      InsertEachKeepsInv(db, agent, front, now);
      var before := InsertEach(db, agent, front, now);
      RecordKeepsInv(before, Granted(agent, last, FromDeploy, now));
      assert forall g <- InsertEach(db, agent, scopes, now).grants ::
        g in before.grants || g == Grant(agent, last, FromDeploy, now, None);
    }
  }

  lemma DeployKeepsInv(db: Db, agent: nat, mock: bool, now: Time)
    requires Inv(db)
    ensures Inv(Deploy(db, agent, mock, now))
  {
    if agent !in db.agents {
      var hired := db.(agents := db.agents + {agent});
      assert forall a, s :: Alternates(EventsOf(db.events, a, s));
      InsertEachKeepsInv(hired, agent, InitialScopes(mock), now);
    }
  }

  lemma StepKeepsInv(db: Db, timed: Timed)
    requires Inv(db)
    ensures Inv(Apply(db, timed))
  {
    if timed.step.DoDeploy? || timed.step.agent in db.agents {
      match timed.step
      case DoDeploy(agent, mock) => DeployKeepsInv(db, agent, mock, timed.at);
      case DoGrant(agent, scope, source) => GrantKeepsInv(db, agent, scope, source, timed.at);
      case DoGrantScopes(agent, scopes) =>
        if GrantScopes(db, agent, scopes, timed.at).Ok? { GrantScopesKeepsInv(db, agent, scopes, timed.at); }
      case DoRevoke(agent, scope) =>
        if !Blank(scope) && Holds(db, agent, scope) { RecordKeepsInv(db, Revoked(agent, scope, timed.at)); }
    }
  }

  lemma {:induction false} RunKeepsInv(steps: seq<Timed>)
    ensures Inv(Run(EMPTY, steps))
  {
    if steps != [] {
      RunKeepsInv(steps[..|steps| - 1]);
      StepKeepsInv(Run(EMPTY, steps[..|steps| - 1]), steps[|steps| - 1]);
    }
  }

  /**
   * Over every run from an empty deployment: replaying the record gives the grants table, row for row; each scope's
   * events alternate from a grant on, and at most one of its rows is active, exactly while its last event is a grant.
   */
  lemma RecordDeterminesGrants(steps: seq<Timed>, agent: nat, scope: string)
    ensures
      var db := Run(EMPTY, steps);
      var events, grants := EventsOf(db.events, agent, scope), GrantsOf(db.grants, agent, scope);
      && db.grants == Replay(db.events)
      && (forall i :: 0 <= i < |events| ==> (events[i].Granted? <==> i % 2 == 0))
      && (forall i :: 0 <= i < |grants| - 1 ==> grants[i].revokedAt.Some?)
      && (Holds(db, agent, scope) <==> LastIsGrant(events))
  {
    var db := Run(EMPTY, steps);
    RunKeepsInv(steps);
    HoldsExactly(db, agent, scope);
    ReplayOf(db.events, agent, scope);
    assert Alternates(EventsOf(db.events, agent, scope));
    AlternatesByParity(EventsOf(db.events, agent, scope));
    ReplayTells(EventsOf(db.events, agent, scope), agent, scope);
  }

  // ---------------------------------------------------------------- what the dashboard reports

  datatype View = View(active: bool, source: Source, grantedAt: Time, revokedAt: Option<Time>)

  predicate Descending(rows: seq<Grant>) {
    forall i, j :: 0 <= i < j < |rows| ==> rows[i].createdAt >= rows[j].createdAt
  }

  function Placed(rows: seq<Grant>, row: Grant): (r: seq<Grant>)
    requires Descending(rows)
    ensures Descending(r) && r != [] && forall x :: x in r <==> x == row || x in rows
  {
    if rows == [] || rows[|rows| - 1].createdAt >= row.createdAt then rows + [row]
    else
      var last := rows[|rows| - 1];
      var r := Placed(rows[..|rows| - 1], row);
      assert rows == rows[..|rows| - 1] + [last];
      assert forall x <- r :: x.createdAt >= last.createdAt;
      r + [last]
  }

  /** The stable sort of a scope's rows, newest first. */
  function NewestFirst(rows: seq<Grant>): (r: seq<Grant>)
    ensures Descending(r) && (r == [] <==> rows == []) && forall x :: x in r <==> x in rows
  {
    if rows == [] then []
    else
      assert rows == rows[..|rows| - 1] + [rows[|rows| - 1]];
      Placed(NewestFirst(rows[..|rows| - 1]), rows[|rows| - 1])
  }

  function FirstActive(rows: seq<Grant>): Option<Grant> {
    if rows == [] then None else if rows[0].revokedAt.None? then Some(rows[0]) else FirstActive(rows[1..])
  }

  /** A scope as the dashboard shows it, or nothing for one never granted. */
  function ScopeView(db: Db, agent: nat, scope: string): Option<View> {
    var rows := NewestFirst(GrantsOf(db.grants, agent, scope));
    if rows == [] then None
    else
      var active := FirstActive(rows);
      var latest := if active.Some? then active.value else rows[0];
      Some(View(active.Some?, latest.source, latest.createdAt, latest.revokedAt))
  }

  predicate InTime(events: seq<Event>) {
    forall i, j :: 0 <= i < j < |events| ==> events[i].at <= events[j].at
  }

  predicate Ascending(rows: seq<Grant>) {
    forall i, j :: 0 <= i < j < |rows| ==> rows[i].createdAt <= rows[j].createdAt
  }

  lemma {:induction false} PlacedHead(rows: seq<Grant>, row: Grant)
    requires Descending(rows)
    ensures Placed(rows, row)[0] == if rows != [] && rows[0].createdAt >= row.createdAt then rows[0] else row
  {
    if rows != [] && rows[|rows| - 1].createdAt < row.createdAt {
      PlacedHead(rows[..|rows| - 1], row);
    }
  }

  predicate FirstOfTheLast(rows: seq<Grant>, k: nat) {
    && k < |rows|
    && rows[k].createdAt == rows[|rows| - 1].createdAt
    && forall i :: 0 <= i < k ==> rows[i].createdAt < rows[k].createdAt
  }

  /** Of rows in the order of their times, the one put first is the earliest row among those of the last one's time. */
  lemma {:induction false} NewestIs(rows: seq<Grant>, k: nat)
    requires Ascending(rows) && FirstOfTheLast(rows, k)
    ensures NewestFirst(rows)[0] == rows[k]
  {
    var front, last := rows[..|rows| - 1], rows[|rows| - 1];
    if front == [] {
      assert NewestFirst(front) == [];
    } else {
      var j := FirstOfItsTime(front);
      NewestIs(front, j);
      PlacedHead(NewestFirst(front), last);
      SameFirst(rows, k, j);
    }
  }

  lemma SameFirst(rows: seq<Grant>, k: nat, j: nat)
    requires |rows| > 1 && Ascending(rows) && FirstOfTheLast(rows, k) && FirstOfTheLast(rows[..|rows| - 1], j)
    ensures rows[k] == if rows[j].createdAt >= rows[|rows| - 1].createdAt then rows[j] else rows[|rows| - 1]
  {
    var front := rows[..|rows| - 1];
    assert front[j] == rows[j] && front[|front| - 1] == rows[|rows| - 2];
    assert forall i :: 0 <= i < j ==> front[i] == rows[i];
  }

  lemma FirstOfItsTime(rows: seq<Grant>) returns (k: nat)
    requires rows != [] && Ascending(rows)
    ensures FirstOfTheLast(rows, k)
  {
    k := |rows| - 1;
    while k > 0 && rows[k - 1].createdAt == rows[k].createdAt
      invariant k < |rows| && rows[k].createdAt == rows[|rows| - 1].createdAt
    {
      k := k - 1;
    }
  }

  lemma {:induction false} FirstActiveExactly(rows: seq<Grant>)
    ensures FirstActive(rows).None? <==> forall x <- rows :: x.revokedAt.Some?
    ensures FirstActive(rows).Some? ==> FirstActive(rows).value in rows && FirstActive(rows).value.revokedAt.None?
  {
    if rows != [] {
      FirstActiveExactly(rows[1..]);
      assert rows == [rows[0]] + rows[1..];
    }
  }

  predicate EndedBy(row: Grant, time: Time) {
    row.revokedAt.Some? && row.createdAt <= row.revokedAt.value <= time
  }

  /** Every row but the last ended before the last was granted. */
  predicate Successive(rows: seq<Grant>) {
    forall i :: 0 <= i < |rows| - 1 ==> EndedBy(rows[i], rows[|rows| - 1].createdAt)
  }

  lemma AddInTime(rows: seq<Grant>, row: Grant)
    requires Ascending(rows) && Successive(rows) && (rows != [] ==> EndedBy(rows[|rows| - 1], row.createdAt))
    ensures Ascending(rows + [row]) && Successive(rows + [row])
  {
  }

  lemma EndInTime(rows: seq<Grant>, agent: nat, scope: string, at: Time)
    requires Ascending(rows) && Successive(rows)
    ensures Ascending(EndEach(rows, agent, scope, at)) && Successive(EndEach(rows, agent, scope, at))
  {
    assert forall i :: 0 <= i < |rows| - 1 ==> Ended(rows[i], agent, scope, at) == rows[i] by {
      assert forall i :: 0 <= i < |rows| - 1 ==> EndedBy(rows[i], rows[|rows| - 1].createdAt);
    }
  }

  lemma NewestGrantIsInTime(events: seq<Event>)
    requires Alternates(events) && InTime(events) && events != []
    ensures NewestGrant(events).at <= events[|events| - 1].at
  {
    if !LastIsGrant(events) { assert NewestGrant(events) == events[|events| - 2]; }
  }

  /** Along a record in the order of time, each row ends between its own grant and the next. */
  lemma {:induction false} ReplayInTime(events: seq<Event>, agent: nat, scope: string)
    requires Alternates(events) && InTime(events) && forall e <- events :: e.agent == agent && e.scope == scope
    ensures Ascending(Replay(events)) && Successive(Replay(events))
  {
    if events != [] {
      var front, last := events[..|events| - 1], events[|events| - 1];
      assert forall e <- front :: e in events;
      ReplayInTime(front, agent, scope);
      match last
      case Granted(_, _, source, at) =>
        if front != [] {
          ReplayTells(front, agent, scope);
          NewestGrantIsInTime(front);
          assert front[|front| - 1] == events[|events| - 2];
        }
        AddInTime(Replay(front), Grant(agent, scope, source, at, None));
      case Revoked(_, _, at) => EndInTime(Replay(front), agent, scope, at);
    }
  }

  predicate SharesItsTime(grants: seq<Grant>) {
    exists i :: 0 <= i < |grants| - 1 && grants[i].createdAt == grants[|grants| - 1].createdAt
  }

  /** A view is of the first row among those of the last one's time. */
  predicate ReadsFirstOfTheLast(grants: seq<Grant>, view: View) {
    exists k: nat | k < |grants| ::
      && FirstOfTheLast(grants, k)
      && view.source == grants[k].source && view.grantedAt == grants[k].createdAt
      && view.revokedAt == grants[k].revokedAt
  }

  /**
   * What the dashboard reports of a scope is what its events say: whether its last is a grant, and when the last grant
   * was. The time of the last revocation is right exactly when no earlier grant shares the last grant's time, or the
   * revocation does too: among rows of one time it reads the first.
   */
  lemma ReportedIsRecorded(db: Db, agent: nat, scope: string)
    requires Inv(db) && InTime(EventsOf(db.events, agent, scope)) && Alternates(EventsOf(db.events, agent, scope))
    ensures
      var events, grants := EventsOf(db.events, agent, scope), GrantsOf(db.grants, agent, scope);
      var view := ScopeView(db, agent, scope);
      && (view.None? <==> events == [])
      && (view.Some? ==>
            && (view.value.active <==> LastIsGrant(events))
            && view.value.grantedAt == NewestGrant(events).at && NewestGrant(events).Granted?
            && (view.value.active ==> view.value.revokedAt.None? && view.value.source == NewestGrant(events).source)
            && (!view.value.active ==> ReadsFirstOfTheLast(grants, view.value))
            && (!SharesItsTime(grants) ==> view.value.source == NewestGrant(events).source)
            && (!view.value.active ==>
                  (view.value.revokedAt == Some(events[|events| - 1].at) <==>
                   !SharesItsTime(grants) || events[|events| - 1].at == NewestGrant(events).at)))
  {
    var events, grants := EventsOf(db.events, agent, scope), GrantsOf(db.grants, agent, scope);
    ReplayOf(db.events, agent, scope);
    ReplayTells(events, agent, scope);
    ReplayInTime(events, agent, scope);
    if grants != [] {
      ReadRow(grants);
    }
  }

  /** The row the dashboard reads: the active one, or else the first of the newest time. */
  lemma ReadRow(grants: seq<Grant>)
    requires grants != [] && Ascending(grants) && Successive(grants)
    ensures
      var rows := NewestFirst(grants);
      var active := FirstActive(rows);
      var row := if active.Some? then active.value else rows[0];
      var last := grants[|grants| - 1];
      && (active.Some? <==> last.revokedAt.None?)
      && row.createdAt == last.createdAt
      && (active.Some? ==> row == last)
      && (active.None? ==> exists k: nat :: FirstOfTheLast(grants, k) && row == grants[k])
      && (active.None? ==>
            (row.revokedAt == last.revokedAt <==> !SharesItsTime(grants) || last.revokedAt == Some(last.createdAt)))
  {
    var k := FirstOfItsTime(grants);
    NewestIs(grants, k);
    FirstActiveExactly(NewestFirst(grants));
    OnlyTheLastIsActive(grants);
    FirstOfItsTimeEnded(grants, k);
  }

  lemma FirstOfItsTimeEnded(grants: seq<Grant>, k: nat)
    requires grants != [] && Ascending(grants) && Successive(grants) && FirstOfTheLast(grants, k)
    ensures
      var last := grants[|grants| - 1];
      last.revokedAt.Some? ==>
        (grants[k].revokedAt == last.revokedAt <==> !SharesItsTime(grants) || last.revokedAt == Some(last.createdAt))
  {
    assert SharesItsTime(grants) <==> k < |grants| - 1;
    assert k < |grants| - 1 ==> EndedBy(grants[k], grants[|grants| - 1].createdAt);
  }

  lemma OnlyTheLastIsActive(grants: seq<Grant>)
    requires grants != [] && Successive(grants)
    ensures forall g <- grants | g.revokedAt.None? :: g == grants[|grants| - 1]
    ensures grants[|grants| - 1] in grants
  {
    assert forall i :: 0 <= i < |grants| - 1 ==> EndedBy(grants[i], grants[|grants| - 1].createdAt);
  }

  // ---------------------------------------------------------------- a clock that never goes back

  predicate NoLater(events: seq<Event>, now: int) {
    forall e <- events :: e.at <= now
  }

  /** A step appends events of its own time only. */
  predicate Appends(events: seq<Event>, after: seq<Event>, now: Time) {
    events <= after && forall i :: |events| <= i < |after| ==> after[i].at == now
  }

  lemma {:induction false} InsertEachAppends(db: Db, agent: nat, scopes: seq<string>, now: Time)
    ensures Appends(db.events, InsertEach(db, agent, scopes, now).events, now)
  {
    if scopes != [] {
      InsertEachAppends(db, agent, scopes[..|scopes| - 1], now);
    }
  }

  lemma {:induction false} GrantScopesAppends(db: Db, agent: nat, scopes: seq<string>, now: Time)
    ensures
      GrantScopes(db, agent, scopes, now).Ok? ==>
        Appends(db.events, GrantScopes(db, agent, scopes, now).value.events, now)
  {
    if scopes != [] {
      GrantScopesAppends(db, agent, scopes[..|scopes| - 1], now);
    }
  }

  lemma StepAppends(db: Db, timed: Timed)
    ensures Appends(db.events, Apply(db, timed).events, timed.at)
  {
    match timed.step
    case DoDeploy(agent, mock) =>
      InsertEachAppends(db.(agents := db.agents + {agent}), agent, InitialScopes(mock), timed.at);
    case DoGrant(_, _, _) =>
    case DoGrantScopes(agent, scopes) => GrantScopesAppends(db, agent, scopes, timed.at);
    case DoRevoke(_, _) =>
  }

  predicate Forward(steps: seq<Timed>) {
    forall i, j :: 0 <= i < j < |steps| ==> steps[i].at <= steps[j].at
  }

  lemma {:induction false} RunInTime(steps: seq<Timed>)
    requires Forward(steps)
    ensures InTime(Run(EMPTY, steps).events)
    ensures steps != [] ==> NoLater(Run(EMPTY, steps).events, steps[|steps| - 1].at)
  {
    if steps != [] {
      var front, last := steps[..|steps| - 1], steps[|steps| - 1];
      RunInTime(front);
      var before, after := Run(EMPTY, front).events, Run(EMPTY, steps).events;
      StepAppends(Run(EMPTY, front), last);
      assert front != [] ==> front[|front| - 1].at <= last.at;
      forall i | 0 <= i < |after|
        ensures after[i].at <= last.at && (|before| <= i ==> after[i].at == last.at)
      {
        if i < |before| { assert after[i] == before[i] && before[i] in before; }
      }
      assert forall i :: 0 <= i < |before| ==> after[i] == before[i];
    }
  }

  lemma {:induction false} EventsOfInTime(events: seq<Event>, agent: nat, scope: string)
    requires InTime(events)
    ensures InTime(EventsOf(events, agent, scope))
  {
    if events != [] {
      EventsOfInTime(events[1..], agent, scope);
      assert forall e <- events[1..] :: events[0].at <= e.at;
      assert forall e <- EventsOf(events[1..], agent, scope) :: events[0].at <= e.at;
    }
  }

  /** So over every run of a clock that never goes back, the dashboard reports what the record says. */
  lemma DashboardFollowsTheRecord(steps: seq<Timed>, agent: nat, scope: string)
    requires Forward(steps)
    ensures
      var db := Run(EMPTY, steps);
      var events, grants := EventsOf(db.events, agent, scope), GrantsOf(db.grants, agent, scope);
      var view := ScopeView(db, agent, scope);
      && (view.None? <==> events == [])
      && (view.Some? ==>
            && Alternates(events)
            && (view.value.active <==> LastIsGrant(events))
            && view.value.grantedAt == NewestGrant(events).at && NewestGrant(events).Granted?
            && (view.value.active ==> view.value.revokedAt.None? && view.value.source == NewestGrant(events).source)
            && (!view.value.active ==> ReadsFirstOfTheLast(grants, view.value))
            && (!SharesItsTime(grants) ==> view.value.source == NewestGrant(events).source)
            && (!view.value.active ==>
                  (view.value.revokedAt == Some(events[|events| - 1].at) <==>
                   || !SharesItsTime(grants)
                   || events[|events| - 1].at == NewestGrant(events).at)))
  {
    var db := Run(EMPTY, steps);
    RunKeepsInv(steps);
    RunInTime(steps);
    EventsOfInTime(db.events, agent, scope);
    assert Alternates(EventsOf(db.events, agent, scope));
    ReportedIsRecorded(db, agent, scope);
  }

  lemma RunNext(steps: seq<Timed>, last: Timed)
    ensures Run(EMPTY, steps + [last]) == Apply(Run(EMPTY, steps), last)
  {
    assert (steps + [last])[..|steps + [last]| - 1] == steps;
  }

  lemma RunOfFive(a: Timed, b: Timed, c: Timed, d: Timed, e: Timed)
    ensures Run(EMPTY, [a, b, c, d, e]) == Apply(Apply(Apply(Apply(Apply(EMPTY, a), b), c), d), e)
  {
    RunNext([], a);
    RunNext([a], b);
    RunNext([a, b], c);
    RunNext([a, b, c], d);
    RunNext([a, b, c, d], e);
    assert [] + [a] == [a] && [a] + [b] == [a, b] && [a, b] + [c] == [a, b, c];
    assert [a, b, c] + [d] == [a, b, c, d] && [a, b, c, d] + [e] == [a, b, c, d, e];
  }

  lemma HoldsInScope(db: Db, agent: nat, scope: string)
    ensures Holds(db, agent, scope) <==> exists g <- GrantsOf(db.grants, agent, scope) :: g.revokedAt.None?
  {
  }

  predicate AllEnded(grants: seq<Grant>) {
    forall g <- grants :: g.revokedAt.Some?
  }

  /** A grant where none stands, on the scope's own rows. */
  lemma GrantedOn(db: Db, agent: nat, scope: string, at: Time)
    requires agent in db.agents && AllEnded(GrantsOf(db.grants, agent, scope))
    ensures
      var after := Apply(db, Timed(at, DoGrant(agent, scope, FromManager)));
      && agent in after.agents && Holds(after, agent, scope)
      && GrantsOf(after.grants, agent, scope) ==
        GrantsOf(db.grants, agent, scope) + [Grant(agent, scope, FromManager, at, None)]
  {
    var grant := Grant(agent, scope, FromManager, at, None);
    HoldsInScope(db, agent, scope);
    GrantAppended(db.grants, grant, agent, scope);
    assert (db.grants + [grant])[|db.grants|] in db.grants + [grant];
  }

  /** The revocation of the one row that stands, the newest. */
  lemma RevokedOn(db: Db, agent: nat, scope: string, ended: seq<Grant>, grant: Grant, at: Time)
    requires agent in db.agents && !Blank(scope) && Holds(db, agent, scope)
    requires grant.agent == agent && grant.scope == scope && grant.revokedAt.None?
    requires AllEnded(ended) && GrantsOf(db.grants, agent, scope) == ended + [grant]
    ensures
      var after := Apply(db, Timed(at, DoRevoke(agent, scope)));
      && agent in after.agents && after.events == db.events + [Revoked(agent, scope, at)]
      && GrantsOf(after.grants, agent, scope) == ended + [grant.(revokedAt := Some(at))]
  {
    EndedOf(db.grants, agent, scope, at, agent, scope);
    assert forall i :: 0 <= i < |ended| ==> ended[i] in ended;
    assert EndEach(ended + [grant], agent, scope, at) == ended + [grant.(revokedAt := Some(at))];
  }

  lemma GrantThenRevoke(db: Db, agent: nat, scope: string, granted: Time, revoked: Time)
    requires agent in db.agents && !Blank(scope) && AllEnded(GrantsOf(db.grants, agent, scope))
    ensures
      var after := Apply(Apply(db, Timed(granted, DoGrant(agent, scope, FromManager))),
        Timed(revoked, DoRevoke(agent, scope)));
      && agent in after.agents
      && after.events != []
      && after.events[|after.events| - 1] == Revoked(agent, scope, revoked)
      && GrantsOf(after.grants, agent, scope) ==
        GrantsOf(db.grants, agent, scope) + [Grant(agent, scope, FromManager, granted, Some(revoked))]
  {
    GrantedOn(db, agent, scope, granted);
    RevokedOn(
      Apply(db, Timed(granted, DoGrant(agent, scope, FromManager))), agent, scope, GrantsOf(db.grants, agent, scope),
      Grant(agent, scope, FromManager, granted, None), revoked);
  }

  lemma {:induction false} NoneOfScope(grants: seq<Grant>, agent: nat, scope: string)
    requires forall g <- grants :: g.scope != scope || g.agent != agent
    ensures GrantsOf(grants, agent, scope) == []
  {
    if grants != [] {
      NoneOfScope(grants[1..], agent, scope);
    }
  }

  lemma DeployedWithout(agent: nat, scope: string, at: Time)
    requires scope !in InitialScopes(false)
    ensures
      var db := Apply(EMPTY, Timed(at, DoDeploy(agent, false)));
      agent in db.agents && GrantsOf(db.grants, agent, scope) == []
  {
    RunKeepsInv([]);
    var hired := EMPTY.(agents := EMPTY.agents + {agent});
    assert forall a, s :: Alternates(EventsOf(EMPTY.events, a, s));
    InsertEachKeepsInv(hired, agent, InitialScopes(false), at);
    NoneOfScope(Apply(EMPTY, Timed(at, DoDeploy(agent, false))).grants, agent, scope);
  }

  /**
   * A scope granted, revoked, granted again in the same millisecond and revoked later: the record's last revocation
   * is the later one, and the one reported is the first.
   */
  lemma TiedGrantsMisreport(agent: nat, scope: string, at: Time, later: Time)
    requires !Blank(scope) && scope !in InitialScopes(false) && at < later
    ensures
      var grant, revoke := DoGrant(agent, scope, FromManager), DoRevoke(agent, scope);
      var steps := [
        Timed(at, DoDeploy(agent, false)), Timed(at, grant), Timed(at, revoke), Timed(at, grant), Timed(later, revoke)];
      var db := Run(EMPTY, steps);
      && Forward(steps)
      && db.events != [] && db.events[|db.events| - 1] == Revoked(agent, scope, later)
      && ScopeView(db, agent, scope).Some? && ScopeView(db, agent, scope).value.revokedAt == Some(at)
  {
    hide Apply, ScopeView;
    var grant, revoke := DoGrant(agent, scope, FromManager), DoRevoke(agent, scope);
    RunOfFive(Timed(at, DoDeploy(agent, false)), Timed(at, grant), Timed(at, revoke), Timed(at, grant),
      Timed(later, revoke));
    DeployedWithout(agent, scope, at);
    TiedAfter(Apply(EMPTY, Timed(at, DoDeploy(agent, false))), agent, scope, at, later);
  }

  lemma TiedAfter(db: Db, agent: nat, scope: string, at: Time, later: Time)
    requires !Blank(scope) && at < later && agent in db.agents && GrantsOf(db.grants, agent, scope) == []
    ensures
      var grant, revoke := DoGrant(agent, scope, FromManager), DoRevoke(agent, scope);
      var once := Apply(Apply(db, Timed(at, grant)), Timed(at, revoke));
      var after := Apply(Apply(once, Timed(at, grant)), Timed(later, revoke));
      && after.events != [] && after.events[|after.events| - 1] == Revoked(agent, scope, later)
      && ScopeView(after, agent, scope).Some? && ScopeView(after, agent, scope).value.revokedAt == Some(at)
  {
    var grant, revoke := DoGrant(agent, scope, FromManager), DoRevoke(agent, scope);
    var once := Apply(Apply(db, Timed(at, grant)), Timed(at, revoke));
    GrantThenRevoke(db, agent, scope, at, at);
    GrantThenRevoke(once, agent, scope, at, later);
    TiedRows(Apply(Apply(once, Timed(at, grant)), Timed(later, revoke)), agent, scope, at, later);
  }

  lemma TiedRows(db: Db, agent: nat, scope: string, at: Time, later: Time)
    requires at < later && GrantsOf(db.grants, agent, scope) ==
      [Grant(agent, scope, FromManager, at, Some(at)), Grant(agent, scope, FromManager, at, Some(later))]
    ensures ScopeView(db, agent, scope).Some? && ScopeView(db, agent, scope).value.revokedAt == Some(at)
  {
    var grants := GrantsOf(db.grants, agent, scope);
    assert FirstOfTheLast(grants, 0);
    NewestIs(grants, 0);
    FirstActiveExactly(NewestFirst(grants));
  }
}
