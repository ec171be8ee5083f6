/**
 What each call writes and what each credential is worth, in terms of the rows alone: which field of
 which row takes which value, what is refused, and what stays as it was.
 */
module AccountEffects {
  import opened Wrappers
  import opened Text
  import opened Ownership
  import opened Accounts
  import opened AccountRuns
  import SweepRuns

  /** Row `id` is the account called `name`, letter case aside. */
  ghost predicate IsAccount(db: Db, id: UserId, name: string) { id in db.users && db.users[id].username == Lower(name) }

  ghost predicate NoAccount(db: Db, name: string) { forall id: UserId :: !IsAccount(db, id, name) }

  lemma TheAccountIsFound(db: Db, name: string)
    requires UniqueNames(db.users)
    ensures NoAccount(db, name) <==> Find(db.users, Lower(name)).None?
    ensures forall id: UserId :: IsAccount(db, id, name) <==> Find(db.users, Lower(name)) == Some(id)
  {
    forall id: UserId | IsAccount(db, id, name) ensures Find(db.users, Lower(name)) == Some(id) {
      FindIs(db.users, id);
    }
  }

  /** Every row but `id` is as it was. */
  ghost predicate OtherUsersUnchanged(a: Db, b: Db, id: UserId) {
    forall u :: u != id ==> (u in a.users <==> u in b.users) && (u in a.users ==> a.users[u] == b.users[u])
  }

  ghost predicate OnlyUsersAndSessionsChange(a: Db, b: Db) {
    a.identities == b.identities && a.groups == b.groups && a.members == b.members && a.grants == b.grants
  }

  // ---------------------------------------------------------------------------------------------
  // Users
  // ---------------------------------------------------------------------------------------------

  /** A creation commits exactly when the folded name is not empty and nobody has it, and writes an
      active row, owned by hand, with the given secret and roles and no expiry. */
  lemma CreationWrites(mode: Enforcement, s: State, rowId: UserId, name: string, secret: string, isAdmin: bool, isService: bool)
    requires ValidState(s) && rowId !in s.db.users
    ensures var op := Create(rowId, name, secret, isAdmin, isService);
            var t := Step(mode, s, op);
            && (Attempt(mode, s, op).Ok? <==> name != "" && NoAccount(s.db, name))
            && (Attempt(mode, s, op).Err? ==> t == s)
            && (Attempt(mode, s, op).Ok? ==>
                  && rowId in t.db.users && OtherUsersUnchanged(s.db, t.db, rowId)
                  && OnlyUsersAndSessionsChange(s.db, t.db) && t.db.sessions == s.db.sessions
                  && var u := t.db.users[rowId];
                     && u.username == Lower(name) && u.secret == secret && u.secretExpires == None
                     && u.isAdmin == isAdmin && u.isService == isService && u.active && u.managedBy == Some("manual"))
  {
    FoldingIsPointwise(name);
    TheAccountIsFound(s.db, name);
  }

  /** The new value of a column an update may write. */
  function Written<T>(given: Option<T>, kept: T): (r: T) { if given.Some? then given.value else kept }

  /** A committed update gives each field that was passed its value and leaves each other one; a new
      secret takes the call's expiry, no expiry included. Nobody else's row changes. */
  lemma UpdateWrites(mode: Enforcement, s: State, id: UserId, name: string, c: Change, writtenBy: Option<string>, adminOverride: bool)
    requires ValidState(s) && IsAccount(s.db, id, name) && Attempt(mode, s, Update(name, c, writtenBy, adminOverride)).Ok?
    ensures var t := Step(mode, s, Update(name, c, writtenBy, adminOverride));
            && id in t.db.users && OtherUsersUnchanged(s.db, t.db, id) && OnlyUsersAndSessionsChange(s.db, t.db)
            && var before, after := s.db.users[id], t.db.users[id];
               && after.username == before.username
               && (c.secret.Some? ==> after.secret == c.secret.value && after.secretExpires == c.secretExpires)
               && (c.secret.None? ==> after.secret == before.secret)
               && (c.secret.None? && c.secretExpires.Some? ==> after.secretExpires == c.secretExpires)
               && (c.secret.None? && c.secretExpires.None? ==> after.secretExpires == before.secretExpires)
               && after.isAdmin == Written(c.isAdmin, before.isAdmin)
               && after.isService == Written(c.isService, before.isService)
               && after.active == Written(c.active, before.active)
               && after.managedBy == (if c.managedBy.Some? then c.managedBy else before.managedBy)
  {
    FindIs(s.db.users, id);
  }

  /** An update is refused exactly when there is no such account, when enforcement without an override
      protects a row another external source owns, or when it would deactivate or demote the one active
      administrator; the reasons are told apart in this order, and a refusal changes nothing. */
  lemma UpdateIsRefusedExactlyWhen(mode: Enforcement, s: State, id: UserId, name: string, c: Change, writtenBy: Option<string>, adminOverride: bool)
    requires ValidState(s)
    ensures var op := Update(name, c, writtenBy, adminOverride);
            && (Attempt(mode, s, op).Err? ==> Step(mode, s, op) == s)
            && (Attempt(mode, s, op) == Err(NotFound) <==> NoAccount(s.db, name))
    ensures IsAccount(s.db, id, name) ==>
              var op := Update(name, c, writtenBy, adminOverride);
              var protected := mode == Enforce && !adminOverride && OwnedByAnother(s.db.users[id].managedBy, writtenBy);
              var last := (c.active == Some(false) || c.isAdmin == Some(false)) && IsLastAdmin(s.db, id);
              && (Attempt(mode, s, op) == Err(ManagedElsewhere) <==> protected)
              && (Attempt(mode, s, op) == Err(LastActiveAdmin) <==> !protected && last)
              && (Attempt(mode, s, op).Ok? <==> !protected && !last)
  {
    TheAccountIsFound(s.db, name);
  }

  /** The row belongs to a source other than `manual` and other than the writer; nothing written counts
      as `manual`. */
  predicate OwnedByAnother(owner: Option<string>, writer: Option<string>) {
    && owner.Some? && owner.value != "" && owner.value != "manual"
    && owner.value != (if writer.Some? && writer.value != "" then writer.value else "manual")
  }

  ghost predicate IsLastAdmin(db: Db, id: UserId) {
    && id in db.users && db.users[id].isAdmin && db.users[id].active
    && forall other :: other in db.users && other != id ==> !(db.users[other].isAdmin && db.users[other].active)
  }

  /** A deletion is refused exactly for a missing account and for the one active administrator; it takes
      the account's row and every row keyed by it, and leaves every other row of every table. */
  lemma DeletionRemoves(mode: Enforcement, s: State, id: UserId, name: string)
    requires ValidState(s)
    ensures Attempt(mode, s, Delete(name)) == Err(NotFound) <==> NoAccount(s.db, name)
    ensures IsAccount(s.db, id, name) ==>
              var t := Step(mode, s, Delete(name)).db;
              && (Attempt(mode, s, Delete(name)).Ok? <==> !IsLastAdmin(s.db, id))
              && (!IsLastAdmin(s.db, id) ==>
                    && id !in t.users && OtherUsersUnchanged(s.db, t, id) && t.groups == s.db.groups
                    && (forall k :: k in t.sessions <==> k in s.db.sessions && s.db.sessions[k].user != id)
                    && (forall k :: k in t.sessions ==> t.sessions[k] == s.db.sessions[k])
                    && (forall k :: k in t.identities <==> k in s.db.identities && s.db.identities[k] != id)
                    && (forall k :: k in t.identities ==> t.identities[k] == s.db.identities[k])
                    && (forall m :: m in t.members <==> m in s.db.members && m.0 != id)
                    && (forall g :: g in t.grants <==> g in s.db.grants && g.user != id))
  {
    TheAccountIsFound(s.db, name);
  }

  /** The two commands write two roles and the owner, or the owner alone, and no other column; break
      glass takes the name as it is stored. */
  lemma CommandsWrite(mode: Enforcement, s: State, id: UserId, owners: map<string, Option<string>>)
    requires ValidState(s) && id in s.db.users
    ensures var t := Step(mode, s, BreakGlass(s.db.users[id].username)).db;
            && id in t.users && t.users[id] == s.db.users[id].(isAdmin := true, active := true, managedBy := Some("manual"))
            && OtherUsersUnchanged(s.db, t, id) && OnlyUsersAndSessionsChange(s.db, t) && t.sessions == s.db.sessions
    ensures var t := Step(mode, s, SetOwners(owners)).db;
            var before := s.db.users[id];
            && id in t.users
            && t.users[id] == (if before.username in owners then before.(managedBy := owners[before.username]) else before)
            && OnlyUsersAndSessionsChange(s.db, t) && t.sessions == s.db.sessions && t.users.Keys == s.db.users.Keys
  {
    FindIs(s.db.users, id);
  }

  // ---------------------------------------------------------------------------------------------
  // Sessions
  // ---------------------------------------------------------------------------------------------

  /** An opened session belongs to the named account, carries its provider and expiry, and resolves to
      the account's current roles until it expires. */
  lemma OpenedSessionsResolve(mode: Enforcement, s: State, id: UserId, sid: string, name: string, expires: Time, via: Option<string>)
    requires ValidState(s) && sid !in s.issued && sid != "" && IsAccount(s.db, id, name)
    ensures var t := Step(mode, s, Open(sid, name, expires, via));
            && Attempt(mode, s, Open(sid, name, expires, via)).Ok?
            && sid in t.db.sessions && t.db.sessions[sid].provider == via
            && t.db.users == s.db.users && OnlyUsersAndSessionsChange(s.db, t.db)
            && (forall k :: k != sid ==> (k in t.db.sessions <==> k in s.db.sessions) && (k in s.db.sessions ==> t.db.sessions[k] == s.db.sessions[k]))
            && var u := s.db.users[id];
               ResolveSession(t, sid) == if s.now < expires then Some(Resolved(u.username, u.isAdmin, u.active, expires)) else None
  {
    FindIs(s.db.users, id);
  }

  /** A session resolves exactly while its row is there, unrevoked and unexpired, to the account its row
      names as that account is now. */
  lemma SessionsResolveExactlyWhen(s: State, sid: string, r: Resolved)
    requires ValidState(s)
    ensures ResolveSession(s, sid) == Some(r) <==>
              && sid != "" && sid in s.db.sessions && s.db.sessions[sid].revoked == None && s.now < s.db.sessions[sid].expires
              && var u := s.db.users[s.db.sessions[sid].user];
                 && r.username == u.username && r.isAdmin == u.isAdmin && r.isActive == u.active && r.expires == s.db.sessions[sid].expires
  {
  }

  /** The sessions listed for an account are those of its rows that resolve. */
  lemma ListedSessionsAreTheLiveOnes(s: State, id: UserId, name: string, sid: string)
    requires ValidState(s) && IsAccount(s.db, id, name)
    ensures sid in SweepRuns.ListLive(s, name) <==>
              && sid in s.db.sessions && s.db.sessions[sid].user == id
              && s.db.sessions[sid].revoked == None && s.now < s.db.sessions[sid].expires
  {
    TheAccountIsFound(s.db, name);
  }

  /** Revoking a session, revoking a user's sessions and deactivating the user end exactly those sessions;
      every other session answers as before. */
  lemma RevocationsEndExactly(mode: Enforcement, s: State, id: UserId, sid: string, name: string, k: string)
    requires ValidState(s) && IsAccount(s.db, id, name)
    ensures ResolveSession(Step(mode, s, Revoke(sid)), k) == if k == sid then None else ResolveSession(s, k)
    ensures ResolveSession(Step(mode, s, RevokeUser(name)), k)
            == if k in s.db.sessions && s.db.sessions[k].user == id then None else ResolveSession(s, k)
  {
    FindIs(s.db.users, id);
  }

  /** An update ends the sessions of its account exactly when it deactivates it. */
  lemma DeactivationEndsExactly(mode: Enforcement, s: State, id: UserId, name: string, c: Change, writtenBy: Option<string>, adminOverride: bool, k: string)
    requires ValidState(s) && IsAccount(s.db, id, name) && Attempt(mode, s, Update(name, c, writtenBy, adminOverride)).Ok?
    requires ResolveSession(s, k).Some?
    ensures ResolveSession(Step(mode, s, Update(name, c, writtenBy, adminOverride)), k).None?
            <==> c.active == Some(false) && s.db.sessions[k].user == id
  {
    FindIs(s.db.users, id);
  }

  /** A sweep drops exactly the rows that have expired. */
  lemma SweepDropsExactlyTheExpired(mode: Enforcement, s: State)
    ensures var t := Step(mode, s, Sweep);
            && (forall k :: k in t.db.sessions <==> k in s.db.sessions && s.now < s.db.sessions[k].expires)
            && (forall k :: k in t.db.sessions ==> t.db.sessions[k] == s.db.sessions[k])
            && t.db.users == s.db.users && OnlyUsersAndSessionsChange(s.db, t.db)
  {
  }

  // ---------------------------------------------------------------------------------------------
  // Identities, groups and permissions
  // ---------------------------------------------------------------------------------------------

  /** A link is refused exactly when there is no such account, when the pair is bound to another one, or
      when another provider holds the account and no second one was allowed; it binds the pair to the
      account and no other. */
  lemma LinkWrites(mode: Enforcement, s: State, id: UserId, provider: string, subject: string, name: string, allow: bool)
    requires ValidState(s) && IsAccount(s.db, id, name)
    ensures var op := Link(provider, subject, name, allow);
            var t := Step(mode, s, op).db;
            var elsewhere := (provider, subject) in s.db.identities && s.db.identities[(provider, subject)] != id;
            var foreign := (provider, subject) !in s.db.identities && !allow
                           && exists k :: k in s.db.identities && s.db.identities[k] == id && k.0 != provider;
            && (Attempt(mode, s, op) == Err(BoundElsewhere) <==> elsewhere)
            && (Attempt(mode, s, op) == Err(OtherProvider) <==> foreign)
            && (Attempt(mode, s, op).Ok? <==> !elsewhere && !foreign)
            && (Attempt(mode, s, op).Ok? ==>
                  && t.identities == s.db.identities[(provider, subject) := id]
                  && t.users == s.db.users && t.sessions == s.db.sessions && t.groups == s.db.groups
                  && t.members == s.db.members && t.grants == s.db.grants)
  {
    FindIs(s.db.users, id);
    if (provider, subject) in s.db.identities && s.db.identities[(provider, subject)] == id {
      assert s.db.identities[(provider, subject) := id] == s.db.identities;
    }
  }

  /** A permission row is added once, for the account of the stored name. */
  lemma GrantsAre(mode: Enforcement, s: State, id: UserId, table: Table, name: string, resource: string)
    requires ValidState(s) && id in s.db.users && s.db.users[id].username == name
    ensures var op := GrantTo(table, name, resource);
            && (Attempt(mode, s, op).Ok? <==> Grant(table, id, resource) !in s.db.grants)
            && Step(mode, s, op).db.grants == s.db.grants + {Grant(table, id, resource)}
  {
    FindIs(s.db.users, id);
    if Grant(table, id, resource) in s.db.grants {
      assert s.db.grants + {Grant(table, id, resource)} == s.db.grants;
    }
  }

  /** A membership of that account is added once, in a group there is, and leaving takes that one row. */
  lemma MembershipsAre(mode: Enforcement, s: State, id: UserId, name: string, group: string)
    requires ValidState(s) && id in s.db.users && s.db.users[id].username == name
    ensures var op := AddMember(name, group);
            && (Attempt(mode, s, op).Ok? <==> group in s.db.groups && (id, group) !in s.db.members)
            && (Attempt(mode, s, op).Ok? ==> Step(mode, s, op).db.members == s.db.members + {(id, group)})
    ensures var op := RemoveMember(name, group);
            && (Attempt(mode, s, op).Ok? <==> group in s.db.groups && (id, group) in s.db.members)
            && (Attempt(mode, s, op).Ok? ==> Step(mode, s, op).db.members == s.db.members - {(id, group)})
  {
    FindIs(s.db.users, id);
  }

  // ---------------------------------------------------------------------------------------------
  // Requests
  // ---------------------------------------------------------------------------------------------

  /** A password request proceeds, as the named account, exactly when that account is there and active,
      its secret has not expired and the stored hash matches what was presented. */
  lemma PasswordsProceedExactlyWhen(s: State, name: string, secret: string, hashMatches: (string, string) -> bool, who: string)
    requires ValidState(s)
    ensures Dispatch(s, Basic(name, secret), hashMatches) == Some(who) <==>
              && who == Lower(name)
              && exists id: UserId :: && IsAccount(s.db, id, name) && s.db.users[id].active
                              && (s.db.users[id].secretExpires == None || s.now <= s.db.users[id].secretExpires.value)
                              && hashMatches(s.db.users[id].secret, secret)
  {
    LowerIdempotent(name);
    TheAccountIsFound(s.db, name);
  }

  /** A token request proceeds exactly when the account it names is there and active. */
  lemma TokensProceedExactlyWhen(s: State, name: string, hashMatches: (string, string) -> bool, who: string)
    requires ValidState(s)
    ensures Dispatch(s, Bearer(name), hashMatches) == Some(who) <==>
              who == Lower(name) && exists id: UserId :: IsAccount(s.db, id, name) && s.db.users[id].active
  {
    LowerIdempotent(name);
    TheAccountIsFound(s.db, name);
  }

  /** A session request proceeds exactly when the cookie and the session are live and the account the
      session belongs to is active. */
  lemma SessionsProceedExactlyWhen(s: State, sid: string, unexpired: bool, hashMatches: (string, string) -> bool, who: string)
    requires ValidState(s)
    ensures Dispatch(s, Cookie(sid, unexpired), hashMatches) == Some(who) <==>
              && unexpired && sid != "" && sid in s.db.sessions
              && s.db.sessions[sid].revoked == None && s.now < s.db.sessions[sid].expires
              && s.db.users[s.db.sessions[sid].user].active && who == s.db.users[s.db.sessions[sid].user].username
  {
  }

  /** After an update that sets a password, a password request is decided by the new hash and the new
      expiry, whatever the old ones were. */
  lemma TheNewPasswordDecides(mode: Enforcement, s: State, id: UserId, name: string, c: Change, writtenBy: Option<string>, adminOverride: bool,
                              secret: string, hashMatches: (string, string) -> bool)
    requires ValidState(s) && IsAccount(s.db, id, name) && Attempt(mode, s, Update(name, c, writtenBy, adminOverride)).Ok?
    requires c.secret.Some?
    ensures var t := Step(mode, s, Update(name, c, writtenBy, adminOverride));
            Dispatch(t, Basic(name, secret), hashMatches) == Some(Lower(name)) <==>
              && Written(c.active, s.db.users[id].active)
              && (c.secretExpires == None || s.now <= c.secretExpires.value)
              && hashMatches(c.secret.value, secret)
  {
    var t := Step(mode, s, Update(name, c, writtenBy, adminOverride));
    StepKeepsValid(mode, s, Update(name, c, writtenBy, adminOverride));
    UpdateWrites(mode, s, id, name, c, writtenBy, adminOverride);
    assert IsAccount(t.db, id, name);
    PasswordsProceedExactlyWhen(t, name, secret, hashMatches, Lower(name));
    FindIs(t.db.users, id);
  }
}
