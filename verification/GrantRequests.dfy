/** The record of a scope told from what a run asked for alone, and that the table follows it (convex/agents.ts). */
module GrantRequests {
  import opened Prelude
  import opened Grants

  predicate Deployed(steps: seq<Timed>, agent: nat) {
    exists timed <- steps :: timed.step.DoDeploy? && timed.step.agent == agent
  }

  /** The scopes an employee starts with, more in mock mode. */
  predicate StartsWith(mock: bool, scope: string) {
    || scope in {"boss:message", "docs:read"}
    || (mock && scope in {"spreadsheet:read", "social:read", "ticket:read", "slack:read"})
  }

  /** The event a request leaves on a scope's record, by whether the employee is deployed and holds the scope. */
  function Leaves(timed: Timed, agent: nat, scope: string, deployed: bool, held: bool): seq<Event> {
    match timed.step
    case DoDeploy(who, mock) =>
      if who == agent && !deployed && StartsWith(mock, scope) then [Granted(agent, scope, FromDeploy, timed.at)] else []
    case DoGrant(who, what, source) =>
      if who == agent && what == scope && deployed && !held then [Granted(agent, scope, source, timed.at)] else []
    case DoGrantScopes(who, scopes) =>
      if who == agent && scope in scopes && deployed && !held && forall what <- scopes :: !Blank(what)
      then [Granted(agent, scope, FromManager, timed.at)] else []
    case DoRevoke(who, what) =>
      if who == agent && what == scope && deployed && held && !Blank(scope)
      then [Revoked(agent, scope, timed.at)] else []
  }

  /** A scope's record, told from the run's requests: held while the last thing told is a grant. */
  function Told(steps: seq<Timed>, agent: nat, scope: string): seq<Event> {
    if steps == [] then []
    else
      var front := steps[..|steps| - 1];
      var before := Told(front, agent, scope);
      before + Leaves(steps[|steps| - 1], agent, scope, Deployed(front, agent), LastIsGrant(before))
  }

  lemma {:induction false} DeployedAre(steps: seq<Timed>, agent: nat)
    ensures agent in Run(EMPTY, steps).agents <==> Deployed(steps, agent)
  {
    if steps != [] {
      var front, last := steps[..|steps| - 1], steps[|steps| - 1];
      assert steps == front + [last];
      DeployedAre(front, agent);
      StepDeploys(Run(EMPTY, front), last, agent);
    }
  }

  lemma StepDeploys(db: Db, timed: Timed, agent: nat)
    ensures
      agent in Apply(db, timed).agents <==> agent in db.agents || (timed.step.DoDeploy? && timed.step.agent == agent)
  {
    match timed.step
    case DoDeploy(who, mock) => InsertEachAgents(db.(agents := db.agents + {who}), who, InitialScopes(mock), timed.at);
    case DoGrantScopes(who, scopes) => GrantScopesAgents(db, who, scopes, timed.at);
    case _ =>
  }

  lemma {:induction false} InsertEachAgents(db: Db, agent: nat, scopes: seq<string>, now: Time)
    ensures InsertEach(db, agent, scopes, now).agents == db.agents
  {
    if scopes != [] { InsertEachAgents(db, agent, scopes[..|scopes| - 1], now); }
  }

  lemma {:induction false} GrantScopesAgents(db: Db, agent: nat, scopes: seq<string>, now: Time)
    ensures
      GrantScopes(db, agent, scopes, now).Ok? ==> GrantScopes(db, agent, scopes, now).value.agents == db.agents
  {
    if scopes != [] { GrantScopesAgents(db, agent, scopes[..|scopes| - 1], now); }
  }

  lemma {:induction false} InsertEachTells(db: Db, agent: nat, scopes: seq<string>, now: Time, a: nat, s: string)
    requires NoRepeats(scopes)
    ensures
      EventsOf(InsertEach(db, agent, scopes, now).events, a, s) ==
      EventsOf(db.events, a, s) + if a == agent && s in scopes then [Granted(a, s, FromDeploy, now)] else []
  {
    if scopes != [] {
      var front, last := scopes[..|scopes| - 1], scopes[|scopes| - 1];
      assert scopes == front + [last];
      InsertEachTells(db, agent, front, now, a, s);
      EventAppended(InsertEach(db, agent, front, now).events, Granted(agent, last, FromDeploy, now), a, s);
    } else {
      assert EventsOf(db.events, a, s) + [] == EventsOf(db.events, a, s);
    }
  }

  lemma GrantTells(db: Db, agent: nat, scope: string, source: Source, now: Time, a: nat, s: string)
    ensures
      EventsOf(GrantScope(db, agent, scope, source, now).events, a, s) ==
      EventsOf(db.events, a, s)
      + if a == agent && s == scope && !Holds(db, a, s) then [Granted(a, s, source, now)] else []
  {
    EventAppended(db.events, Granted(agent, scope, source, now), a, s);
  }

  /** Granting one scope makes it held, and leaves whether any other is. */
  lemma GrantHolds(db: Db, agent: nat, scope: string, source: Source, now: Time, a: nat, s: string)
    ensures
      Holds(GrantScope(db, agent, scope, source, now), a, s) <==> Holds(db, a, s) || (a == agent && s == scope)
  {
    if !Holds(db, agent, scope) {
      var after := GrantScope(db, agent, scope, source, now);
      var added := Grant(agent, scope, source, now, None);
      assert forall g :: g in after.grants <==> g in db.grants || g == added;
    }
  }

  /** Granting several refuses a blank one, and leaves one event for each scope of the list not held before. */
  lemma {:induction false} GrantScopesTell(db: Db, agent: nat, scopes: seq<string>, now: Time, a: nat, s: string)
    ensures GrantScopes(db, agent, scopes, now).Ok? <==> forall what <- scopes :: !Blank(what)
    ensures GrantScopes(db, agent, scopes, now).Ok? ==>
      var after := GrantScopes(db, agent, scopes, now).value;
      && (Holds(after, a, s) <==> Holds(db, a, s) || (a == agent && s in scopes))
      && EventsOf(after.events, a, s) ==
           EventsOf(db.events, a, s)
           + if a == agent && s in scopes && !Holds(db, a, s) then [Granted(a, s, FromManager, now)] else []
  {
    if scopes != [] {
      var front, last := scopes[..|scopes| - 1], scopes[|scopes| - 1];
      assert scopes == front + [last];
      GrantScopesTell(db, agent, front, now, a, s);
      var before := GrantScopes(db, agent, front, now);
      if before.Ok? {
        GrantTells(before.value, agent, last, FromManager, now, a, s);
        GrantHolds(before.value, agent, last, FromManager, now, a, s);
      }
    } else {
      assert EventsOf(db.events, a, s) + [] == EventsOf(db.events, a, s);
    }
  }

  lemma RevokeTells(db: Db, agent: nat, scope: string, now: Time, a: nat, s: string)
    ensures RevokeScope(db, agent, scope, now).Ok? <==> !Blank(scope)
    ensures RevokeScope(db, agent, scope, now).Ok? ==>
      EventsOf(RevokeScope(db, agent, scope, now).value.events, a, s) ==
      EventsOf(db.events, a, s) + if a == agent && s == scope && Holds(db, a, s) then [Revoked(a, s, now)] else []
  {
    EventAppended(db.events, Revoked(agent, scope, now), a, s);
  }

  lemma InitialAre(mock: bool, scope: string)
    ensures NoRepeats(InitialScopes(mock)) && (scope in InitialScopes(mock) <==> StartsWith(mock, scope))
  {
  }

  lemma StepTells(db: Db, timed: Timed, agent: nat, scope: string)
    ensures
      EventsOf(Apply(db, timed).events, agent, scope) ==
      EventsOf(db.events, agent, scope) + Leaves(timed, agent, scope, agent in db.agents, Holds(db, agent, scope))
  {
    var events := EventsOf(db.events, agent, scope);
    assert events + [] == events;
    match timed.step
    case DoDeploy(who, mock) =>
      InitialAre(mock, scope);
      InsertEachTells(db.(agents := db.agents + {who}), who, InitialScopes(mock), timed.at, agent, scope);
    case DoGrant(who, what, source) => GrantTells(db, who, what, source, timed.at, agent, scope);
    case DoGrantScopes(who, scopes) => GrantScopesTell(db, who, scopes, timed.at, agent, scope);
    case DoRevoke(who, what) => RevokeTells(db, who, what, timed.at, agent, scope);
  }

  /**
   * Over every run from an empty deployment: a scope's record is what the run's requests alone tell, each event with
   * its source and time; and the employee holds the scope exactly while the last of it is a grant.
   */
  lemma {:induction false} RecordIsWhatWasAsked(steps: seq<Timed>, agent: nat, scope: string)
    ensures
      var db := Run(EMPTY, steps);
      && EventsOf(db.events, agent, scope) == Told(steps, agent, scope)
      && (Holds(db, agent, scope) <==> LastIsGrant(Told(steps, agent, scope)))
  {
    RunKeepsInv(steps);
    HoldsExactly(Run(EMPTY, steps), agent, scope);
    if steps != [] {
      var front, last := steps[..|steps| - 1], steps[|steps| - 1];
      RecordIsWhatWasAsked(front, agent, scope);
      DeployedAre(front, agent);
      StepTells(Run(EMPTY, front), last, agent, scope);
    }
  }

  /** A row of a scope's record: a grant, ended by the revocation told after it. */
  function PairAt(events: seq<Event>, agent: nat, scope: string, k: nat): Grant
    requires 2 * k < |events| && events[2 * k].Granted?
  {
    Grant(
      agent, scope, events[2 * k].source, events[2 * k].at,
      if 2 * k + 1 < |events| then Some(events[2 * k + 1].at) else None)
  }

  /** The rows are those the events tell in pairs. */
  ghost predicate InPairs(grants: seq<Grant>, events: seq<Event>, agent: nat, scope: string) {
    && (forall i :: 0 <= i < |events| ==> (events[i].Granted? <==> i % 2 == 0))
    && |grants| == (|events| + 1) / 2
    && forall k :: 0 <= k < |grants| ==> grants[k] == PairAt(events, agent, scope, k)
  }

  lemma {:induction false} ReplayedInPairs(events: seq<Event>, agent: nat, scope: string)
    requires Alternates(events) && forall e <- events :: e.agent == agent && e.scope == scope
    ensures InPairs(Replay(events), events, agent, scope)
  {
    AlternatesByParity(events);
    if events != [] {
      var front, last := events[..|events| - 1], events[|events| - 1];
      assert events == front + [last];
      assert last in events && forall e <- front :: e in events;
      ReplayedInPairs(front, agent, scope);
      PairsNext(Replay(front), front, last, agent, scope);
    }
  }

  lemma PairsNext(grants: seq<Grant>, front: seq<Event>, last: Event, agent: nat, scope: string)
    requires InPairs(grants, front, agent, scope) && last.agent == agent && last.scope == scope
    requires last.Granted? <==> |front| % 2 == 0
    ensures InPairs(Replayed(grants, last), front + [last], agent, scope)
  {
    var after, events := Replayed(grants, last), front + [last];
    forall k | 0 <= k < |after|
      ensures after[k] == PairAt(events, agent, scope, k)
    {
      assert events[2 * k] == if 2 * k < |front| then front[2 * k] else last;
      if 2 * k + 1 < |events| {
        assert events[2 * k + 1] == if 2 * k + 1 < |front| then front[2 * k + 1] else last;
      }
    }
  }

  /** So is the table's: a scope's rows are the grants its requests tell of, each ended by the revocation after it. */
  lemma TableIsWhatWasAsked(steps: seq<Timed>, agent: nat, scope: string)
    ensures InPairs(GrantsOf(Run(EMPTY, steps).grants, agent, scope), Told(steps, agent, scope), agent, scope)
  {
    var db := Run(EMPTY, steps);
    RunKeepsInv(steps);
    RecordIsWhatWasAsked(steps, agent, scope);
    ReplayOf(db.events, agent, scope);
    assert Alternates(EventsOf(db.events, agent, scope));
    ReplayedInPairs(EventsOf(db.events, agent, scope), agent, scope);
  }
}
