/**
 The account tables as the repositories change them, statement by statement
 (mlflow_oidc_auth/repository/user.py, auth_session.py, user_identity.py).  Every method commits
 exactly the transaction its name has in the state machine, or is refused and changes nothing.
 */
module AccountRepository {
  import opened Wrappers
  import opened Ownership
  import opened Accounts
  import opened AccountRuns

  /** The permission tables a deletion clears, in the order it clears them. */
  const PERMISSION_TABLES := [
    ExperimentGrant, ExperimentRegex, ModelGrant, ModelRegex, ScorerGrant, ScorerRegex, EndpointGrant, EndpointRegex,
    SecretGrant, SecretRegex, DefinitionGrant, DefinitionRegex, WorkspaceGrant, WorkspaceRegex]

  class AccountTables {
    var users: map<UserId, User>
    var sessions: map<string, Session>
    var identities: map<(string, string), UserId>
    var groups: set<string>
    var members: set<(UserId, string)>
    var grants: map<Table, set<(UserId, string)>>

    constructor ()
      ensures Valid(Contents()) && Contents() == Db(map[], map[], map[], {}, {}, {})
    {
      users, sessions, identities, groups, members, grants := map[], map[], map[], {}, {}, map[];
    }

    ghost function Contents(): (r: Db)
      reads this
    {
      Db(users, sessions, identities, groups, members, GrantRows(grants))
    }

    method Lookup(name: string) returns (id: Option<UserId>)
      requires UniqueNames(users)
      ensures id == Find(users, name)
    {
      if exists u :: u in users && users[u].username == name {
        var u :| u in users && users[u].username == name;
        FindIs(users, u);
        id := Some(u);
      } else {
        id := None;
      }
    }

    /** The guard: how many other active administrators are there? */
    method WouldLeaveNoAdmin(id: UserId) returns (refuse: bool)
      requires id in users
      ensures refuse <==> OnlyActiveAdmin(users, id)
    {
      if !(users[id].isAdmin && users[id].active) {
        return false;
      }
      var remaining := set u | u in users && users[u].isAdmin && users[u].active && u != id;
      refuse := |remaining| == 0;
      if !refuse {
        assert remaining != {};
        var other :| other in remaining;
        assert other in users && ActiveAdmin(users[other]) && other != id;
      } else {
        assert forall u :: u in users && ActiveAdmin(users[u]) && u != id ==> u in remaining;
      }
    }

    method CreateUser(rowId: UserId, name: string, secret: string, isAdmin: bool, isService: bool) returns (refused: Option<Refusal>)
      requires Valid(Contents()) && rowId !in users
      modifies this
      ensures Accounts.CreateUser(old(Contents()), rowId, name, secret, isAdmin, isService)
              == if refused.None? then Ok(Contents()) else Err(refused.value)
      ensures refused.Some? ==> Contents() == old(Contents())
      ensures Valid(Contents())
    {
      CreateKeepsValid(Off, State(Contents(), 0, sessions.Keys), Create(rowId, name, secret, isAdmin, isService));
      var n := NormalizeUsername(name);
      if n == "" {
        return Some(InvalidName);
      }
      var existing := Lookup(n);
      if existing.Some? {
        return Some(AlreadyExists);
      }
      users := users[rowId := User(n, secret, None, isAdmin, isService, true, Some(MANUAL))];
      refused := None;
    }

    method UpdateUser(now: Time, mode: Enforcement, name: string, c: Change, writtenBy: Option<string>, adminOverride: bool)
      returns (refused: Option<Refusal>)
      requires Valid(Contents())
      modifies this
      ensures Accounts.UpdateUser(old(Contents()), now, mode, name, c, writtenBy, adminOverride)
              == if refused.None? then Ok(Contents()) else Err(refused.value)
      ensures refused.Some? ==> Contents() == old(Contents())
      ensures Valid(Contents())
    {
      UpdateCommitsValid(Contents(), now, mode, name, c, writtenBy, adminOverride);
      var found := Lookup(NormalizeUsername(name));
      if found.None? {
        return Some(NotFound);
      }
      var id := found.value;
      if !EvaluateWrite(users[id].managedBy, writtenBy, mode, adminOverride).allowed {
        return Some(ManagedElsewhere);
      }
      if c.active == Some(false) || c.isAdmin == Some(false) {
        var refuse := WouldLeaveNoAdmin(id);
        if refuse {
          return Some(LastActiveAdmin);
        }
      }
      var user := AssignFields(users[id], c);
      if c.active == Some(false) {
        RevokeRows(id, now);
      }
      users := users[id := user];
      refused := None;
    }

    /** The field assignments of an update, in order; a new secret gets its own expiry. */
    static method AssignFields(row: User, c: Change) returns (user: User)
      ensures user == Apply(row, c)
    {
      user := row;
      if c.secret.Some? {
        user := user.(secret := c.secret.value);
        user := user.(secretExpires := c.secretExpires);
      } else if c.secretExpires.Some? {
        user := user.(secretExpires := c.secretExpires);
      }
      if c.isAdmin.Some? {
        user := user.(isAdmin := c.isAdmin.value);
      }
      if c.isService.Some? {
        user := user.(isService := c.isService.value);
      }
      if c.active.Some? {
        user := user.(active := c.active.value);
      }
      if c.managedBy.Some? {
        user := user.(managedBy := c.managedBy);
      }
    }

    /** Stamps the live session rows of a user. */
    method RevokeRows(id: UserId, now: Time)
      modifies this`sessions
      ensures sessions == RevokedFor(old(sessions), id, now)
    {
      var live := set k | k in sessions && sessions[k].user == id && sessions[k].revoked.None?;
      ghost var before := sessions;
      while live != {}
        invariant sessions.Keys == before.Keys && live <= before.Keys
        invariant forall k :: k in live ==> sessions[k] == before[k]
        invariant forall k :: k in before && k !in live ==> sessions[k] == RevokedFor(before, id, now)[k]
        invariant forall k :: k in live ==> before[k].user == id && before[k].revoked.None?
        decreases live
      {
        var k :| k in live;
        sessions := sessions[k := sessions[k].(revoked := Some(now))];
        live := live - {k};
      }
    }

    method DeleteUser(name: string) returns (refused: Option<Refusal>)
      requires Valid(Contents())
      modifies this
      ensures Accounts.DeleteUser(old(Contents()), name) == if refused.None? then Ok(Contents()) else Err(refused.value)
      ensures refused.Some? ==> Contents() == old(Contents())
      ensures Valid(Contents())
    {
      DeleteCommitsValid(Contents(), name);
      var found := Lookup(NormalizeUsername(name));
      if found.None? {
        return Some(NotFound);
      }
      var id := found.value;
      var refuse := WouldLeaveNoAdmin(id);
      if refuse {
        return Some(LastActiveAdmin);
      }
      DeleteRowsOf(id);
      refused := None;
    }

    /** The dependent rows first, table by table, and the user's own row last. */
    method DeleteRowsOf(id: UserId)
      modifies this
      ensures Contents() == Without(old(Contents()), id)
    {
      sessions := map k | k in sessions && sessions[k].user != id :: sessions[k];
      identities := map k | k in identities && identities[k] != id :: identities[k];
      DeletePermissionRows(id);
      members := set m | m in members && m.0 != id;
      users := map u | u in users && u != id :: users[u];
    }

    /** One bulk delete on each of the permission tables. */
    method DeletePermissionRows(id: UserId)
      modifies this`grants
      ensures GrantRows(grants) == set g | g in GrantRows(old(grants)) && g.user != id
    {
      ghost var before := grants;
      for i := 0 to |PERMISSION_TABLES|
        invariant grants.Keys == before.Keys
        invariant forall t :: t in grants ==> grants[t] == if t in PERMISSION_TABLES[..i] then Spared(before[t], id) else before[t]
      {
        var table := PERMISSION_TABLES[i];
        if table in grants {
          grants := grants[table := Spared(grants[table], id)];
        }
      }
      assert PERMISSION_TABLES[..|PERMISSION_TABLES|] == PERMISSION_TABLES;
      AllTablesCleared(before, grants, id);
    }

    method OpenSession(sid: string, name: string, expires: Time, provider: Option<string>) returns (refused: Option<Refusal>)
      requires Valid(Contents()) && sid !in sessions
      modifies this
      ensures Accounts.OpenSession(old(Contents()), sid, name, expires, provider)
              == if refused.None? then Ok(Contents()) else Err(refused.value)
      ensures refused.Some? ==> Contents() == old(Contents())
      ensures Valid(Contents())
    {
      var found := Lookup(NormalizeUsername(name));
      if found.None? {
        return Some(NotFound);
      }
      sessions := sessions[sid := Session(found.value, provider, expires, None)];
      refused := None;
    }

    method Resolve(sid: string, now: Time) returns (r: Option<Resolved>)
      requires Valid(Contents())
      ensures r == ResolveSession(State(Contents(), now, {}), sid)
    {
      if sid == "" {
        return None;
      }
      if sid !in sessions {
        return None;
      }
      var row := sessions[sid];
      if row.revoked.Some? || row.expires <= now {
        return None;
      }
      var u := users[row.user];
      r := Some(Resolved(u.username, u.isAdmin, u.active, row.expires));
    }

    method Revoke(sid: string, now: Time) returns (wasLive: bool)
      requires Valid(Contents())
      modifies this`sessions
      ensures Contents() == RevokeSession(old(Contents()), sid, now)
      ensures wasLive <==> sid in old(sessions) && old(sessions)[sid].revoked.None?
      ensures Valid(Contents())
    {
      wasLive := sid in sessions && sessions[sid].revoked.None?;
      if wasLive {
        sessions := sessions[sid := sessions[sid].(revoked := Some(now))];
      }
    }

    method RevokeAllForUser(name: string, now: Time)
      requires Valid(Contents())
      modifies this`sessions
      ensures Contents() == RevokeAll(old(Contents()), name, now)
      ensures Valid(Contents())
    {
      var found := Lookup(NormalizeUsername(name));
      if found.Some? {
        RevokeRows(found.value, now);
      }
    }

    method DeleteExpired(cutoff: Time)
      requires Valid(Contents())
      modifies this`sessions
      ensures Contents() == PruneSessions(old(Contents()), cutoff)
      ensures Valid(Contents())
    {
      sessions := map k | k in sessions && sessions[k].expires > cutoff :: sessions[k];
    }

    /** `written` says whether a new binding was stored. */
    method Link(provider: string, subject: string, name: string, allowAdditional: bool) returns (refused: Option<Refusal>, written: bool)
      requires Valid(Contents())
      modifies this`identities
      ensures LinkIdentity(old(Contents()), provider, subject, name, allowAdditional)
              == if refused.None? then Ok((Contents(), written)) else Err(refused.value)
      ensures refused.Some? || !written ==> Contents() == old(Contents())
      ensures Valid(Contents())
    {
      written := false;
      var found := Lookup(NormalizeUsername(name));
      if found.None? {
        return Some(NotFound), false;
      }
      if (provider, subject) in identities {
        if identities[(provider, subject)] != found.value {
          return Some(BoundElsewhere), false;
        }
        return None, false;
      }
      if !allowAdditional {
        var foreign := set k | k in identities && identities[k] == found.value && k.0 != provider;
        if foreign != {} {
          var k :| k in foreign;
          assert HasForeignBinding(Contents(), found.value, provider);
          return Some(OtherProvider), false;
        }
        assert forall k :: k in identities && identities[k] == found.value && k.0 != provider ==> k in foreign;
      }
      identities := identities[(provider, subject) := found.value];
      refused, written := None, true;
    }
  }

  function GrantRows(grants: map<Table, set<(UserId, string)>>): (r: set<Grant>) {
    set t, r | t in grants && r in grants[t] :: Grant(t, r.0, r.1)
  }

  lemma UpdateCommitsValid(db: Db, now: Time, mode: Enforcement, name: string, c: Change, writtenBy: Option<string>, adminOverride: bool)
    requires Valid(db)
    ensures var r := Accounts.UpdateUser(db, now, mode, name, c, writtenBy, adminOverride); r.Ok? ==> Valid(r.value)
  {
    UpdateKeepsValid(mode, State(db, now, db.sessions.Keys), Update(name, c, writtenBy, adminOverride));
  }

  lemma DeleteCommitsValid(db: Db, name: string)
    requires Valid(db)
    ensures var r := Accounts.DeleteUser(db, name); r.Ok? ==> Valid(r.value)
  {
    DeleteKeepsValid(Off, State(db, 0, db.sessions.Keys), Delete(name));
  }

  function Spared(rows: set<(UserId, string)>, id: UserId): (r: set<(UserId, string)>) { set r | r in rows && r.0 != id }

  lemma EveryTableIsListed(t: Table)
    ensures t in PERMISSION_TABLES
  {
    match t
    case ExperimentGrant => assert PERMISSION_TABLES[0] == t;
    case ExperimentRegex => assert PERMISSION_TABLES[1] == t;
    case ModelGrant => assert PERMISSION_TABLES[2] == t;
    case ModelRegex => assert PERMISSION_TABLES[3] == t;
    case ScorerGrant => assert PERMISSION_TABLES[4] == t;
    case ScorerRegex => assert PERMISSION_TABLES[5] == t;
    case EndpointGrant => assert PERMISSION_TABLES[6] == t;
    case EndpointRegex => assert PERMISSION_TABLES[7] == t;
    case SecretGrant => assert PERMISSION_TABLES[8] == t;
    case SecretRegex => assert PERMISSION_TABLES[9] == t;
    case DefinitionGrant => assert PERMISSION_TABLES[10] == t;
    case DefinitionRegex => assert PERMISSION_TABLES[11] == t;
    case WorkspaceGrant => assert PERMISSION_TABLES[12] == t;
    case WorkspaceRegex => assert PERMISSION_TABLES[13] == t;
  }

  /** When every table spared only other users' rows, no permission row of the user is left. */
  lemma AllTablesCleared(before: map<Table, set<(UserId, string)>>, after: map<Table, set<(UserId, string)>>, id: UserId)
    requires after.Keys == before.Keys
    requires forall t :: t in before ==> after[t] == if t in PERMISSION_TABLES then Spared(before[t], id) else before[t]
    ensures GrantRows(after) == set g | g in GrantRows(before) && g.user != id
  {
    forall t ensures t in PERMISSION_TABLES {
      EveryTableIsListed(t);
    }
    forall g ensures g in GrantRows(after) <==> g in GrantRows(before) && g.user != id {
      if g in GrantRows(before) && g.user != id {
        assert g.table in after && (g.user, g.resource) in after[g.table];
        assert g == Grant(g.table, (g.user, g.resource).0, (g.user, g.resource).1);
      }
      if g in GrantRows(after) {
        assert g.table in before && (g.user, g.resource) in before[g.table];
      }
    }
  }
}
