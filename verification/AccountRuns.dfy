/** What every run of the account store keeps, whatever calls are made and in whatever order. */
module AccountRuns {
  import opened Wrappers
  import opened Text
  import opened Ownership
  import opened Accounts

  // ---------------------------------------------------------------------------------------------
  // No residue: rows keyed by a user never outlive the user
  // ---------------------------------------------------------------------------------------------

  lemma StepKeepsValid(mode: Enforcement, s: State, op: Op)
    requires ValidState(s) && Enabled(s, op)
    ensures ValidState(Step(mode, s, op))
  {
    match op
    case Create(_, _, _, _, _) => CreateKeepsValid(mode, s, op);
    case Update(_, _, _, _) => UpdateKeepsValid(mode, s, op);
    case Delete(_) => DeleteKeepsValid(mode, s, op);
    case BreakGlass(_) => BreakGlassKeepsValid(mode, s, op);
    case SetOwners(_) => SetOwnersKeepsValid(mode, s, op);
    case SetMembers(_, _) => SetMembersKeepsValid(mode, s, op);
    case _ => OthersKeepValid(mode, s, op);
  }

  lemma OthersKeepValid(mode: Enforcement, s: State, op: Op)
    requires !op.Create? && !op.Update? && !op.Delete? && !op.BreakGlass? && !op.SetMembers? && !op.SetOwners?
    requires ValidState(s) && Enabled(s, op)
    ensures ValidState(Step(mode, s, op))
  {
  }

  lemma CreateKeepsValid(mode: Enforcement, s: State, op: Op)
    requires op.Create? && ValidState(s) && Enabled(s, op)
    ensures ValidState(Step(mode, s, op))
  {
  }

  lemma UpdateKeepsValid(mode: Enforcement, s: State, op: Op)
    requires op.Update? && ValidState(s)
    ensures ValidState(Step(mode, s, op))
  {
  }

  lemma DeleteKeepsValid(mode: Enforcement, s: State, op: Op)
    requires op.Delete? && ValidState(s)
    ensures ValidState(Step(mode, s, op))
  {
  }

  lemma BreakGlassKeepsValid(mode: Enforcement, s: State, op: Op)
    requires op.BreakGlass? && ValidState(s)
    ensures ValidState(Step(mode, s, op))
  {
  }

  lemma SetOwnersKeepsValid(mode: Enforcement, s: State, op: Op)
    requires op.SetOwners? && ValidState(s)
    ensures ValidState(Step(mode, s, op))
  {
  }

  lemma SetMembersKeepsValid(mode: Enforcement, s: State, op: Op)
    requires op.SetMembers? && ValidState(s)
    ensures ValidState(Step(mode, s, op))
  {
  }

  lemma {:induction false} RunKeepsValid(mode: Enforcement, s: State, ops: seq<Op>)
    requires ValidState(s) && Legal(mode, s, ops)
    ensures ValidState(Run(mode, s, ops))
    decreases ops
  {
    if ops != [] {
      StepKeepsValid(mode, s, ops[0]);
      RunKeepsValid(mode, Step(mode, s, ops[0]), ops[1..]);
    }
  }

  /** Usernames are stored folded, and none is empty. */
  ghost predicate StoredNames(db: Db) {
    forall id :: id in db.users ==> db.users[id].username != "" && NormalizeUsername(db.users[id].username) == db.users[id].username
  }

  lemma {:induction false} RunKeepsStoredNames(mode: Enforcement, s: State, ops: seq<Op>)
    requires StoredNames(s.db) && Legal(mode, s, ops)
    ensures StoredNames(Run(mode, s, ops).db)
    decreases ops
  {
    if ops != [] {
      StepKeepsStoredNames(mode, s, ops[0]);
      RunKeepsStoredNames(mode, Step(mode, s, ops[0]), ops[1..]);
    }
  }

  lemma StepKeepsStoredNames(mode: Enforcement, s: State, op: Op)
    requires StoredNames(s.db) && Enabled(s, op)
    ensures StoredNames(Step(mode, s, op).db)
  {
    if op.Create? { LowerIdempotent(op.name); }
    var t := Step(mode, s, op);
    forall id | id in t.db.users
      ensures t.db.users[id].username != "" && NormalizeUsername(t.db.users[id].username) == t.db.users[id].username
    {
      if id in s.db.users { StepKeepsNames(mode, s, op, id); }
    }
  }

  /** No row of the database is keyed by `id`. */
  ghost predicate NoRowsFor(db: Db, id: UserId) {
    && (forall k :: k in db.sessions ==> db.sessions[k].user != id)
    && (forall k :: k in db.identities ==> db.identities[k] != id)
    && (forall m :: m in db.members ==> m.0 != id)
    && (forall g :: g in db.grants ==> g.user != id)
  }

  /** At the end of any run, an account created under any name and any free row id, recycled or not,
      starts with no session, identity, membership or permission. */
  lemma NewAccountsStartEmpty(mode: Enforcement, s: State, ops: seq<Op>, rowId: UserId, name: string, secret: string, isAdmin: bool, isService: bool)
    requires ValidState(s) && Legal(mode, s, ops)
    requires Enabled(Run(mode, s, ops), Create(rowId, name, secret, isAdmin, isService))
    ensures var created := CreateUser(Run(mode, s, ops).db, rowId, name, secret, isAdmin, isService);
            created.Ok? ==> NoRowsFor(created.value, rowId) && Find(created.value.users, NormalizeUsername(name)) == Some(rowId)
  {
    RunKeepsValid(mode, s, ops);
    var db := Run(mode, s, ops).db;
    var created := CreateUser(db, rowId, name, secret, isAdmin, isService);
    if created.Ok? {
      StepKeepsValid(mode, Run(mode, s, ops), Create(rowId, name, secret, isAdmin, isService));
      FindIs(created.value.users, rowId);
    }
  }

  // ---------------------------------------------------------------------------------------------
  // The last active administrator
  // ---------------------------------------------------------------------------------------------

  lemma StepKeepsAnAdmin(mode: Enforcement, s: State, op: Op)
    requires Enabled(s, op) && HasActiveAdmin(s.db)
    ensures HasActiveAdmin(Step(mode, s, op).db)
  {
    var admin :| admin in s.db.users && ActiveAdmin(s.db.users[admin]);
    var after := Step(mode, s, op).db;
    match op
    case Update(name, change, writtenBy, adminOverride) =>
      if Attempt(mode, s, op).Ok? {
        var id := Find(s.db.users, NormalizeUsername(name)).value;
        if change.active == Some(false) || change.isAdmin == Some(false) {
          SurvivingAdmin(s.db, id, after);
        } else {
          assert admin in after.users && ActiveAdmin(after.users[admin]);
        }
      }
    case Delete(name) =>
      if Attempt(mode, s, op).Ok? {
        SurvivingAdmin(s.db, Find(s.db.users, NormalizeUsername(name)).value, after);
      }
    case _ =>
      assert admin in after.users && ActiveAdmin(after.users[admin]);
  }

  /** Past the guard there is another active administrator, and the call left their row alone. */
  lemma SurvivingAdmin(before: Db, id: UserId, after: Db)
    requires id in before.users && HasActiveAdmin(before) && !OnlyActiveAdmin(before.users, id)
    requires forall u :: u in before.users && u != id ==> u in after.users && after.users[u] == before.users[u]
    ensures HasActiveAdmin(after)
  {
    if ActiveAdmin(before.users[id]) {
      var other :| other in before.users && ActiveAdmin(before.users[other]) && other != id;
      assert other in after.users && ActiveAdmin(after.users[other]);
    } else {
      var other :| other in before.users && ActiveAdmin(before.users[other]);
      assert other in after.users && ActiveAdmin(after.users[other]);
    }
  }

  /** From a state with an active administrator, no run in any enforcement mode reaches one without. */
  lemma {:induction false} RunKeepsAnAdmin(mode: Enforcement, s: State, ops: seq<Op>)
    requires Legal(mode, s, ops) && HasActiveAdmin(s.db)
    ensures HasActiveAdmin(Run(mode, s, ops).db)
    decreases ops
  {
    if ops != [] {
      StepKeepsAnAdmin(mode, s, ops[0]);
      RunKeepsAnAdmin(mode, Step(mode, s, ops[0]), ops[1..]);
    }
  }

  /** The guard refuses no more than it must: when it refuses, the change would have left nobody. */
  lemma GuardIsExact(mode: Enforcement, s: State, name: string, change: Change, writtenBy: Option<string>, adminOverride: bool)
    requires ValidState(s)
    ensures Attempt(mode, s, Update(name, change, writtenBy, adminOverride)) == Err(LastActiveAdmin) ==>
              var id := Find(s.db.users, NormalizeUsername(name)).value;
              !HasActiveAdmin(s.db.(users := s.db.users[id := Apply(s.db.users[id], change)]))
    ensures Attempt(mode, s, Delete(name)) == Err(LastActiveAdmin) ==>
              !HasActiveAdmin(Without(s.db, Find(s.db.users, NormalizeUsername(name)).value))
  {
  }

  /** Break glass reaches a state with an active administrator from any state at all. */
  lemma BreakGlassRestores(mode: Enforcement, s: State, name: string)
    requires Find(s.db.users, name).Some?
    ensures HasActiveAdmin(Step(mode, s, BreakGlass(name)).db)
  {
    var id := Find(s.db.users, name).value;
    assert ActiveAdmin(Step(mode, s, BreakGlass(name)).db.users[id]);
  }

  // ---------------------------------------------------------------------------------------------
  // Sessions die once
  // ---------------------------------------------------------------------------------------------

  datatype Resolved = Resolved(username: string, isAdmin: bool, isActive: bool, expires: Time)

  /** The join of a live session with its user. */
  ghost function ResolveSession(s: State, sid: string): (r: Option<Resolved>) {
    if sid != "" && sid in s.db.sessions && s.db.sessions[sid].revoked.None? && s.db.sessions[sid].expires > s.now
       && s.db.sessions[sid].user in s.db.users
    then
      var u := s.db.users[s.db.sessions[sid].user];
      Some(Resolved(u.username, u.isAdmin, u.active, s.db.sessions[sid].expires))
    else None
  }

  lemma StepKeepsDead(mode: Enforcement, s: State, op: Op, sid: string)
    requires ValidState(s) && Enabled(s, op)
    requires sid in s.issued && ResolveSession(s, sid).None?
    ensures sid in Step(mode, s, op).issued && ResolveSession(Step(mode, s, op), sid).None?
  {
  }

  /** Once an issued session id fails to resolve it never resolves again. */
  lemma {:induction false} SessionsDieOnce(mode: Enforcement, s: State, ops: seq<Op>, sid: string)
    requires ValidState(s) && Legal(mode, s, ops)
    requires sid in s.issued && ResolveSession(s, sid).None?
    ensures ResolveSession(Run(mode, s, ops), sid).None?
    decreases ops
  {
    if ops != [] {
      StepKeepsDead(mode, s, ops[0], sid);
      StepKeepsValid(mode, s, ops[0]);
      SessionsDieOnce(mode, Step(mode, s, ops[0]), ops[1..], sid);
    }
  }

  /** Every session a user had when their deactivation committed stays dead, through whatever
      follows, reactivation included. */
  lemma DeactivationEndsSessionsForGood(mode: Enforcement, s: State, name: string, change: Change, writtenBy: Option<string>,
                                        adminOverride: bool, later: seq<Op>, sid: string)
    requires ValidState(s) && change.active == Some(false)
    requires var op := Update(name, change, writtenBy, adminOverride);
             Attempt(mode, s, op).Ok? && Legal(mode, Step(mode, s, op), later)
    requires sid in s.db.sessions && Find(s.db.users, NormalizeUsername(name)) == Some(s.db.sessions[sid].user)
    ensures ResolveSession(Run(mode, Step(mode, s, Update(name, change, writtenBy, adminOverride)), later), sid).None?
  {
    var op := Update(name, change, writtenBy, adminOverride);
    StepKeepsValid(mode, s, op);
    SessionsDieOnce(mode, Step(mode, s, op), later, sid);
  }

  // ---------------------------------------------------------------------------------------------
  // Requests by a deactivated account
  // ---------------------------------------------------------------------------------------------

  /** A request's credential, after its own checks: the name a password or token proves, or a session id. */
  datatype Credential = Basic(name: string, secret: string) | Bearer(name: string) | Cookie(sid: string, unexpired: bool)

  ghost function Authenticate(s: State, c: Credential, hashMatches: (string, string) -> bool): (r: Option<string>) {
    match c
    case Basic(name, secret) =>
      (match Find(s.db.users, NormalizeUsername(name))
       case None => None
       case Some(id) =>
         var u := s.db.users[id];
         if u.secretExpires.Some? && u.secretExpires.value < s.now then None
         else if hashMatches(u.secret, secret) then Some(NormalizeUsername(name)) else None)
    case Bearer(name) => Some(NormalizeUsername(name))
    case Cookie(sid, unexpired) =>
      var r := ResolveSession(s, sid);
      if r.None? || !unexpired then None else Some(r.value.username)
  }

  /** The user a protected request proceeds as, if it proceeds. */
  ghost function Dispatch(s: State, c: Credential, hashMatches: (string, string) -> bool): (r: Option<string>) {
    match Authenticate(s, c, hashMatches)
    case None => None
    case Some(name) =>
      if c.Cookie? then (if ResolveSession(s, c.sid).value.isActive then Some(name) else None)
      else
        match Find(s.db.users, NormalizeUsername(name))
        case None => None
        case Some(id) => if s.db.users[id].active then Some(name) else None
  }

  ghost predicate Inactive(s: State, id: UserId) {
    id in s.db.users && !s.db.users[id].active
  }

  /** The operations that can make the account of `name` active, or another account of that name. */
  predicate MayActivate(op: Op, name: string) {
    match op
    case Update(n, change, _, _) => NormalizeUsername(n) == name && change.active == Some(true)
    case BreakGlass(n) => n == name
    case Delete(n) => NormalizeUsername(n) == name
    case _ => false
  }

  lemma StepKeepsInactive(mode: Enforcement, s: State, op: Op, id: UserId)
    requires ValidState(s) && Enabled(s, op)
    requires Inactive(s, id) && !MayActivate(op, s.db.users[id].username)
    ensures var t := Step(mode, s, op); Inactive(t, id) && t.db.users[id].username == s.db.users[id].username
  {
    match op
    case Update(_, _, _, _) => UpdateKeepsInactive(mode, s, op, id);
    case Delete(_) => OtherAccountsStayInactive(mode, s, op, id);
    case BreakGlass(_) => OtherAccountsStayInactive(mode, s, op, id);
    case Create(_, _, _, _, _) => OtherAccountsStayInactive(mode, s, op, id);
    case SetOwners(_) => OtherAccountsStayInactive(mode, s, op, id);
    case _ => OtherCallsLeaveUsers(mode, s, op);
  }

  lemma OtherCallsLeaveUsers(mode: Enforcement, s: State, op: Op)
    requires !op.Create? && !op.Update? && !op.Delete? && !op.BreakGlass? && !op.SetOwners?
    ensures Step(mode, s, op).db.users == s.db.users
  {
  }

  lemma UpdateKeepsInactive(mode: Enforcement, s: State, op: Op, id: UserId)
    requires op.Update? && ValidState(s) && Inactive(s, id) && !MayActivate(op, s.db.users[id].username)
    ensures var t := Step(mode, s, op); Inactive(t, id) && t.db.users[id].username == s.db.users[id].username
  {
  }

  lemma OtherAccountsStayInactive(mode: Enforcement, s: State, op: Op, id: UserId)
    requires (op.Delete? || op.BreakGlass? || op.Create? || op.SetOwners?) && Enabled(s, op) && ValidState(s) && Inactive(s, id) && !MayActivate(op, s.db.users[id].username)
    ensures var t := Step(mode, s, op); Inactive(t, id) && t.db.users[id].username == s.db.users[id].username
  {
  }

  lemma {:induction false} StaysInactive(mode: Enforcement, s: State, ops: seq<Op>, id: UserId, name: string)
    requires ValidState(s) && Legal(mode, s, ops)
    requires Inactive(s, id) && s.db.users[id].username == name
    requires forall op :: op in ops ==> !MayActivate(op, name)
    ensures ValidState(Run(mode, s, ops))
    ensures var t := Run(mode, s, ops); Inactive(t, id) && t.db.users[id].username == name
    decreases ops
  {
    if ops != [] {
      StepKeepsInactive(mode, s, ops[0], id);
      StepKeepsValid(mode, s, ops[0]);
      StaysInactive(mode, Step(mode, s, ops[0]), ops[1..], id, name);
    }
  }

  /** From a deactivation until something reactivates or replaces the account, no protected request
      proceeds as its user, by password, token or session, old or new. */
  lemma NoRequestProceedsWhileInactive(mode: Enforcement, s: State, ops: seq<Op>, id: UserId, c: Credential, hashMatches: (string, string) -> bool)
    requires ValidState(s) && Legal(mode, s, ops) && Inactive(s, id)
    requires forall op :: op in ops ==> !MayActivate(op, s.db.users[id].username)
    ensures Dispatch(Run(mode, s, ops), c, hashMatches) != Some(s.db.users[id].username)
  {
    StaysInactive(mode, s, ops, id, s.db.users[id].username);
    FindIs(Run(mode, s, ops).db.users, id);
    if !c.Cookie? {
      LowerIdempotent(c.name);
    }
  }

  // ---------------------------------------------------------------------------------------------
  // External identities
  // ---------------------------------------------------------------------------------------------

  /** Neither a row's name nor a binding's row changes while both exist. */
  lemma StepKeepsNames(mode: Enforcement, s: State, op: Op, id: UserId)
    requires Enabled(s, op) && id in s.db.users && id in Step(mode, s, op).db.users
    ensures Step(mode, s, op).db.users[id].username == s.db.users[id].username
  {
  }

  lemma StepKeepsTarget(mode: Enforcement, s: State, op: Op, pair: (string, string))
    requires pair in s.db.identities && pair in Step(mode, s, op).db.identities
    ensures Step(mode, s, op).db.identities[pair] == s.db.identities[pair]
  {
  }

  lemma StepKeepsBinding(mode: Enforcement, s: State, op: Op, pair: (string, string))
    requires ValidState(s) && Enabled(s, op)
    requires pair in s.db.identities && pair in Step(mode, s, op).db.identities
    ensures var t := Step(mode, s, op);
            && t.db.identities[pair] == s.db.identities[pair]
            && t.db.identities[pair] in t.db.users
            && t.db.users[t.db.identities[pair]].username == s.db.users[s.db.identities[pair]].username
  {
    StepKeepsValid(mode, s, op);
    StepKeepsTarget(mode, s, op, pair);
    StepKeepsNames(mode, s, op, s.db.identities[pair]);
  }

  predicate Deletes(op: Op, name: string) { op.Delete? && NormalizeUsername(op.name) == name }

  predicate Creates(op: Op, name: string) { op.Create? && NormalizeUsername(op.name) == name }

  /** A deletion, or a creation, of the name that commits. */
  ghost predicate Removes(mode: Enforcement, s: State, op: Op, name: string) { Deletes(op, name) && Attempt(mode, s, op).Ok? }

  ghost predicate Makes(mode: Enforcement, s: State, op: Op, name: string) { Creates(op, name) && Attempt(mode, s, op).Ok? }

  /** Some deletion of the name commits along the run. */
  ghost predicate RemovedAlong(mode: Enforcement, s: State, ops: seq<Op>, name: string)
    decreases ops
  {
    ops != [] && (Removes(mode, s, ops[0], name) || RemovedAlong(mode, Step(mode, s, ops[0]), ops[1..], name))
  }

  /** Some creation of the name along the run commits under row `id`, and no deletion of it after that. */
  ghost predicate MadeAlong(mode: Enforcement, s: State, ops: seq<Op>, name: string, id: UserId)
    decreases ops
  {
    && ops != []
    && var t := Step(mode, s, ops[0]);
       || (Makes(mode, s, ops[0], name) && ops[0].rowId == id && !RemovedAlong(mode, t, ops[1..], name))
       || MadeAlong(mode, t, ops[1..], name, id)
  }

  /** The account a name belongs to at the end of a run was made by the run if and only if the name was
      free at its start or was deleted along it; otherwise it is the account of the start, in its row. */
  lemma {:induction false} AccountsAreKeptOrMade(mode: Enforcement, s: State, ops: seq<Op>, name: string, id: UserId)
    requires ValidState(s) && Legal(mode, s, ops) && Find(Run(mode, s, ops).db.users, name) == Some(id)
    ensures MadeAlong(mode, s, ops, name, id) <==> Find(s.db.users, name).None? || RemovedAlong(mode, s, ops, name)
    ensures !MadeAlong(mode, s, ops, name, id) ==> Find(s.db.users, name) == Some(id)
    decreases ops
  {
    if ops != [] {
      var t := Step(mode, s, ops[0]);
      StepKeepsValid(mode, s, ops[0]);
      AccountsAreKeptOrMade(mode, t, ops[1..], name, id);
      StepMovesAName(mode, s, ops[0], name);
    }
  }

  /** What one call does to the account of a name. */
  lemma StepMovesAName(mode: Enforcement, s: State, op: Op, name: string)
    requires ValidState(s) && Enabled(s, op)
    ensures var before, after := Find(s.db.users, name), Find(Step(mode, s, op).db.users, name);
            && (Removes(mode, s, op, name) ==> before.Some? && after.None?)
            && (Makes(mode, s, op, name) ==> before.None? && after == Some(op.rowId))
            && (!Removes(mode, s, op, name) && !Makes(mode, s, op, name) ==> after == before)
  {
    var t := Step(mode, s, op);
    StepKeepsValid(mode, s, op);
    if Makes(mode, s, op, name) {
      FindIs(t.db.users, op.rowId);
    } else if Removes(mode, s, op, name) {
      assert forall id :: id in t.db.users ==> id in s.db.users && t.db.users[id] == s.db.users[id];
    } else if Find(s.db.users, name).Some? {
      var id := Find(s.db.users, name).value;
      StepKeepsRow(mode, s, op, id);
      FindIs(t.db.users, id);
    } else {
      StepMakesNoName(mode, s, op, name);
    }
  }

  lemma StepKeepsRow(mode: Enforcement, s: State, op: Op, id: UserId)
    requires ValidState(s) && Enabled(s, op) && id in s.db.users && !Removes(mode, s, op, s.db.users[id].username)
    ensures id in Step(mode, s, op).db.users
    ensures Step(mode, s, op).db.users[id].username == s.db.users[id].username
  {
    if id in Step(mode, s, op).db.users {
      StepKeepsNames(mode, s, op, id);
    }
  }

  lemma StepMakesNoName(mode: Enforcement, s: State, op: Op, name: string)
    requires ValidState(s) && Enabled(s, op) && Find(s.db.users, name).None? && !Makes(mode, s, op, name)
    ensures Find(Step(mode, s, op).db.users, name).None?
  {
    var t := Step(mode, s, op);
    forall id | id in t.db.users ensures t.db.users[id].username != name {
      if id in s.db.users {
        StepKeepsNames(mode, s, op, id);
      }
    }
  }

  ghost predicate BoundThroughout(mode: Enforcement, s: State, ops: seq<Op>, pair: (string, string))
    decreases ops
  {
    pair in s.db.identities && (ops == [] || BoundThroughout(mode, Step(mode, s, ops[0]), ops[1..], pair))
  }

  /** While a (provider, subject) pair stays bound it names the same account, however stale the
      decisions that later links act on. */
  lemma {:induction false} IdentitiesAreNeverRepointed(mode: Enforcement, s: State, ops: seq<Op>, pair: (string, string))
    requires ValidState(s) && Legal(mode, s, ops) && BoundThroughout(mode, s, ops, pair)
    ensures var t := Run(mode, s, ops);
            && pair in t.db.identities && t.db.identities[pair] == s.db.identities[pair]
            && t.db.identities[pair] in t.db.users && s.db.identities[pair] in s.db.users
            && t.db.users[t.db.identities[pair]].username == s.db.users[s.db.identities[pair]].username
    decreases ops
  {
    if ops != [] {
      StepKeepsBinding(mode, s, ops[0], pair);
      StepKeepsValid(mode, s, ops[0]);
      IdentitiesAreNeverRepointed(mode, Step(mode, s, ops[0]), ops[1..], pair);
    }
  }

  /** The account a pair is bound to throughout a run is not deleted along it. */
  lemma {:induction false} BoundAccountsAreNotRemoved(mode: Enforcement, s: State, ops: seq<Op>, pair: (string, string), name: string)
    requires ValidState(s) && Legal(mode, s, ops) && BoundThroughout(mode, s, ops, pair)
    requires s.db.users[s.db.identities[pair]].username == name
    ensures !RemovedAlong(mode, s, ops, name)
    decreases ops
  {
    if ops != [] {
      var t := Step(mode, s, ops[0]);
      StepKeepsValid(mode, s, ops[0]);
      StepKeepsBinding(mode, s, ops[0], pair);
      FindIs(s.db.users, s.db.identities[pair]);
      BoundAccountsAreNotRemoved(mode, t, ops[1..], pair, name);
    }
  }

  /** All bindings of the account called `name` come from one provider. */
  ghost predicate OneProvider(db: Db, name: string) {
    forall j, k ::
      && j in db.identities && k in db.identities && db.identities[j] == db.identities[k]
      && db.identities[j] in db.users && db.users[db.identities[j]].username == name
      ==> j.0 == k.0
  }

  predicate LinksDeliberately(op: Op, name: string) {
    op.Link? && op.allowAdditional && NormalizeUsername(op.name) == name
  }

  lemma StepKeepsOneProvider(mode: Enforcement, s: State, op: Op, name: string)
    requires ValidState(s) && Enabled(s, op)
    requires OneProvider(s.db, name) && !LinksDeliberately(op, name)
    ensures OneProvider(Step(mode, s, op).db, name)
  {
    var t := Step(mode, s, op);
    StepKeepsValid(mode, s, op);
    forall j, k | j in t.db.identities && k in t.db.identities && t.db.identities[j] == t.db.identities[k]
                  && t.db.users[t.db.identities[j]].username == name
      ensures j.0 == k.0
    {
      BindingStems(mode, s, op, j);
      BindingStems(mode, s, op, k);
    }
  }

  /** A binding after a step was there before, or a link of this step wrote it for an account that no
      other provider owned unless the link said otherwise. */
  lemma BindingStems(mode: Enforcement, s: State, op: Op, pair: (string, string))
    requires ValidState(s) && Enabled(s, op)
    requires pair in Step(mode, s, op).db.identities
    ensures var t := Step(mode, s, op);
            var id := t.db.identities[pair];
            && id in t.db.users && id in s.db.users && s.db.users[id].username == t.db.users[id].username
            && (pair in s.db.identities ==> s.db.identities[pair] == id)
            && (pair !in s.db.identities ==>
                  && op.Link? && pair == (op.provider, op.subject)
                  && s.db.users[id].username == NormalizeUsername(op.name)
                  && (op.allowAdditional || !HasForeignBinding(s.db, id, op.provider)))
  {
    if pair in s.db.identities {
      StepKeepsBinding(mode, s, op, pair);
    }
  }

  /** An account is bound to two providers only if some link asked for that explicitly. */
  lemma {:induction false} SecondProvidersAreDeliberate(mode: Enforcement, s: State, ops: seq<Op>, name: string)
    requires ValidState(s) && Legal(mode, s, ops) && OneProvider(s.db, name)
    requires forall op :: op in ops ==> !LinksDeliberately(op, name)
    ensures OneProvider(Run(mode, s, ops).db, name)
    decreases ops
  {
    if ops != [] {
      StepKeepsOneProvider(mode, s, ops[0], name);
      StepKeepsValid(mode, s, ops[0]);
      SecondProvidersAreDeliberate(mode, Step(mode, s, ops[0]), ops[1..], name);
    }
  }
}
