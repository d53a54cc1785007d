/** The grants table and the record as the mutations write them in place (convex/agents.ts). */
module GrantTable {
  import opened Prelude
  import opened Grants

  class Permissions {
    var agents: set<nat>
    var grants: seq<Grant>
    var events: seq<Event>

    ghost function Contents(): Db
      reads this
    {
      Db(agents, grants, events)
    }

    constructor ()
      ensures Contents() == EMPTY && Inv(Contents())
    {
      agents, grants, events := {}, [], [];
      new;
      RunKeepsInv([]);
    }

    method DeployAgent(agent: nat, mock: bool, now: Time)
      requires agent !in agents
      modifies this
      ensures Contents() == Deploy(old(Contents()), agent, mock, now)
    {
      agents := agents + {agent};
      ghost var hired := Contents();
      var scopes := InitialScopes(mock);
      for i := 0 to |scopes|
        invariant Contents() == InsertEach(hired, agent, scopes[..i], now)
      {
        assert scopes[..i + 1][..i] == scopes[..i];
        grants := grants + [Grant(agent, scopes[i], FromDeploy, now, None)];
        events := events + [Granted(agent, scopes[i], FromDeploy, now)];
      }
      assert scopes[..|scopes|] == scopes;
    }

    method GrantScopeOnce(agent: nat, scope: string, source: Source, now: Time) returns (added: bool)
      modifies this
      ensures Contents() == GrantScope(old(Contents()), agent, scope, source, now)
      ensures added <==> !Holds(old(Contents()), agent, scope)
    {
      for i := 0 to |grants|
        invariant
          forall j ::
            0 <= j < i ==> !(grants[j].agent == agent && grants[j].scope == scope && grants[j].revokedAt.None?)
      {
        if grants[i].agent == agent && grants[i].scope == scope && grants[i].revokedAt.None? {
          assert grants[i] in grants;
          return false;
        }
      }
      grants := grants + [Grant(agent, scope, source, now, None)];
      events := events + [Granted(agent, scope, source, now)];
      added := true;
    }

    /** The manager's grant of several scopes; a blank one throws, and the transaction takes back the ones before it. */
    method GrantScopesOf(agent: nat, scopes: seq<string>, now: Time) returns (added: Result<nat, string>)
      modifies this
      ensures added.Ok? <==> GrantScopes(old(Contents()), agent, scopes, now).Ok?
      ensures Contents() == Settled(old(Contents()), GrantScopes(old(Contents()), agent, scopes, now))
      ensures added.Ok? ==> |grants| == |old(grants)| + added.value
    {
      var grantsBefore, eventsBefore := grants, events;
      var count := 0;
      for i := 0 to |scopes|
        invariant agents == old(agents) && 0 <= count && |grants| == |old(grants)| + count
        invariant GrantScopes(old(Contents()), agent, scopes[..i], now) == Ok(Contents())
      {
        assert scopes[..i + 1][..i] == scopes[..i];
        if Blank(scopes[i]) {
          GrantScopesStop(old(Contents()), agent, scopes, i + 1, now);
          grants, events := grantsBefore, eventsBefore;
          return Err("permission scope must not be empty");
        }
        var result := GrantScopeOnce(agent, scopes[i], FromManager, now);
        if result { count := count + 1; }
      }
      assert scopes[..|scopes|] == scopes;
      added := Ok(count);
    }

    method RevokeScopeOf(agent: nat, scope: string, now: Time) returns (revoked: Result<nat, string>)
      modifies this
      ensures Contents() == Settled(old(Contents()), RevokeScope(old(Contents()), agent, scope, now))
      ensures revoked.Err? <==> Blank(scope)
      ensures revoked.Ok? ==> revoked.value == ActiveCount(old(grants), agent, scope)
    {
      if Blank(scope) { return Err("permission scope must not be empty"); }
      var count := 0;
      for i := 0 to |grants|
        invariant 0 <= count && |grants| == |old(grants)| && agents == old(agents) && events == old(events)
        invariant
          forall j ::
            0 <= j < |grants| ==>
              grants[j] == if j < i then Ended(old(grants)[j], agent, scope, now) else old(grants)[j]
        invariant count == ActiveCount(old(grants)[..i], agent, scope)
      {
        CountNext(old(grants), i, agent, scope);
        if grants[i].agent == agent && grants[i].scope == scope && grants[i].revokedAt.None? {
          grants := grants[i := grants[i].(revokedAt := Some(now))];
          count := count + 1;
        }
      }
      assert old(grants)[..|grants|] == old(grants);
      CountedExactly(Db(agents, old(grants), events), agent, scope);
      if count == 0 {
        assert grants == old(grants);
        return Ok(0);
      }
      assert grants == EndEach(old(grants), agent, scope, now);
      events := events + [Revoked(agent, scope, now)];
      revoked := Ok(count);
    }
  }

  lemma CountNext(grants: seq<Grant>, i: nat, agent: nat, scope: string)
    requires i < |grants|
    ensures
      ActiveCount(grants[..i + 1], agent, scope) == ActiveCount(grants[..i], agent, scope)
        + if grants[i].agent == agent && grants[i].scope == scope && grants[i].revokedAt.None? then 1 else 0
  {
    assert grants[..i + 1] == grants[..i] + [grants[i]];
    FilterAppend(grants[..i], [grants[i]], (g: Grant) => g.agent == agent && g.scope == scope && g.revokedAt.None?);
  }

  lemma CountedExactly(db: Db, agent: nat, scope: string)
    ensures ActiveCount(db.grants, agent, scope) > 0 <==> Holds(db, agent, scope)
  {
    var active := Filter(db.grants, (g: Grant) => g.agent == agent && g.scope == scope && g.revokedAt.None?);
    if active != [] {
      assert active[0] in active;
    }
  }

  /** Once a scope is refused, so is every longer list. */
  lemma {:induction false} GrantScopesStop(db: Db, agent: nat, scopes: seq<string>, n: nat, now: Time)
    requires n <= |scopes| && GrantScopes(db, agent, scopes[..n], now).Err?
    ensures GrantScopes(db, agent, scopes, now).Err?
  {
    if n < |scopes| {
      assert scopes[..|scopes| - 1][..n] == scopes[..n];
      GrantScopesStop(db, agent, scopes[..|scopes| - 1], n, now);
    } else {
      assert scopes[..n] == scopes;
    }
  }
}
