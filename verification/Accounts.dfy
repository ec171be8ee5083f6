/**
 The account store as a state machine: users, their sessions, external identities, group
 memberships and permission rows (mlflow_oidc_auth/repository/user.py, auth_session.py,
 user_identity.py, group.py and the commands of db/cli.py that write user rows).

 Each repository call is one transaction: it either commits its whole effect or is refused and
 leaves the database as it was.  Row ids are chosen by the database and may be reused after a
 deletion; session ids are fresh; the clock never runs backwards.
 */
module Accounts {
  import opened Wrappers
  import opened Text
  import opened Ownership

  type UserId = nat
  type Time = int

  datatype User = User(
    username: string,
    secret: string,
    secretExpires: Option<Time>,
    isAdmin: bool,
    isService: bool,
    active: bool,
    managedBy: Option<string>)

  datatype Session = Session(user: UserId, provider: Option<string>, expires: Time, revoked: Option<Time>)

  /** The permission tables keyed by a user. */
  datatype Table =
    | ExperimentGrant | ExperimentRegex | ModelGrant | ModelRegex | ScorerGrant | ScorerRegex
    | EndpointGrant | EndpointRegex | SecretGrant | SecretRegex | DefinitionGrant | DefinitionRegex
    | WorkspaceGrant | WorkspaceRegex

  datatype Grant = Grant(table: Table, user: UserId, resource: string)

  datatype Db = Db(
    users: map<UserId, User>,
    sessions: map<string, Session>,
    identities: map<(string, string), UserId>,
    groups: set<string>,
    members: set<(UserId, string)>,
    grants: set<Grant>)

  /** The database, the clock, and every session id handed out so far. */
  datatype State = State(db: Db, now: Time, issued: set<string>)

  datatype Refusal =
    NotFound | AlreadyExists | InvalidName | LastActiveAdmin | ManagedElsewhere | BoundElsewhere | OtherProvider | NoSuchGroup

  /** The fields of an update; None leaves a column as it is. */
  datatype Change = Change(
    secret: Option<string>,
    secretExpires: Option<Time>,
    isAdmin: Option<bool>,
    isService: Option<bool>,
    active: Option<bool>,
    managedBy: Option<string>)

  function NormalizeUsername(name: string): (r: string) { Lower(name) }

  ghost function Find(users: map<UserId, User>, name: string): (r: Option<UserId>) {
    if exists id :: id in users && users[id].username == name then
      var id :| id in users && users[id].username == name;
      Some(id)
    else None
  }

  ghost predicate UniqueNames(users: map<UserId, User>) {
    forall a, b :: a in users && b in users && users[a].username == users[b].username ==> a == b
  }

  /** Names are unique, and every row keyed by a user refers to one that exists. */
  ghost predicate Valid(db: Db) {
    && UniqueNames(db.users)
    && (forall k :: k in db.sessions ==> db.sessions[k].user in db.users)
    && (forall k :: k in db.identities ==> db.identities[k] in db.users)
    && (forall m :: m in db.members ==> m.0 in db.users)
    && (forall g :: g in db.grants ==> g.user in db.users)
  }

  lemma FindIs(users: map<UserId, User>, id: UserId)
    requires UniqueNames(users) && id in users
    ensures Find(users, users[id].username) == Some(id)
  {
  }

  predicate ActiveAdmin(u: User) { u.isAdmin && u.active }

  ghost predicate HasActiveAdmin(db: Db) {
    exists id :: id in db.users && ActiveAdmin(db.users[id])
  }

  /** The guard of every call that removes, deactivates or demotes `id`. */
  ghost predicate OnlyActiveAdmin(users: map<UserId, User>, id: UserId)
    requires id in users
  {
    ActiveAdmin(users[id]) && forall other :: other in users && ActiveAdmin(users[other]) ==> other == id
  }

  // ---------------------------------------------------------------------------------------------
  // The transactions
  // ---------------------------------------------------------------------------------------------

  function Apply(u: User, c: Change): (r: User) {
    u.(secret := if c.secret.Some? then c.secret.value else u.secret,
       secretExpires := if c.secret.Some? || c.secretExpires.Some? then c.secretExpires else u.secretExpires,
       isAdmin := if c.isAdmin.Some? then c.isAdmin.value else u.isAdmin,
       isService := if c.isService.Some? then c.isService.value else u.isService,
       active := if c.active.Some? then c.active.value else u.active,
       managedBy := if c.managedBy.Some? then c.managedBy else u.managedBy)
  }

  function RevokedFor(sessions: map<string, Session>, id: UserId, now: Time): (r: map<string, Session>) {
    map k | k in sessions ::
      if sessions[k].user == id && sessions[k].revoked.None? then sessions[k].(revoked := Some(now)) else sessions[k]
  }

  /** The database without a user and without any row keyed by them. */
  function Without(db: Db, id: UserId): (r: Db) {
    Db(map u | u in db.users && u != id :: db.users[u],
       map k | k in db.sessions && db.sessions[k].user != id :: db.sessions[k],
       map k | k in db.identities && db.identities[k] != id :: db.identities[k],
       db.groups,
       set m | m in db.members && m.0 != id,
       set g | g in db.grants && g.user != id)
  }

  ghost function CreateUser(db: Db, rowId: UserId, name: string, secret: string, isAdmin: bool, isService: bool): (r: Result<Db, Refusal>) {
    var n := NormalizeUsername(name);
    if n == "" then Err(InvalidName)
    else if Find(db.users, n).Some? then Err(AlreadyExists)
    else Ok(db.(users := db.users[rowId := User(n, secret, None, isAdmin, isService, true, Some(MANUAL))]))
  }

  ghost function UpdateUser(db: Db, now: Time, mode: Enforcement, name: string, c: Change, writtenBy: Option<string>, adminOverride: bool)
    : (r: Result<Db, Refusal>)
  {
    var found := Find(db.users, NormalizeUsername(name));
    if found.None? then Err(NotFound)
    else
      var id := found.value;
      if !EvaluateWrite(db.users[id].managedBy, writtenBy, mode, adminOverride).allowed then Err(ManagedElsewhere)
      else if (c.active == Some(false) || c.isAdmin == Some(false)) && OnlyActiveAdmin(db.users, id) then Err(LastActiveAdmin)
      else Ok(db.(users := db.users[id := Apply(db.users[id], c)],
                  sessions := if c.active == Some(false) then RevokedFor(db.sessions, id, now) else db.sessions))
  }

  ghost function DeleteUser(db: Db, name: string): (r: Result<Db, Refusal>) {
    var found := Find(db.users, NormalizeUsername(name));
    if found.None? then Err(NotFound)
    else if OnlyActiveAdmin(db.users, found.value) then Err(LastActiveAdmin)
    else Ok(Without(db, found.value))
  }

  /** The break-glass command; it takes the name as typed. */
  ghost function RestoreAdmin(db: Db, name: string): (r: Result<Db, Refusal>) {
    var found := Find(db.users, name);
    if found.None? then Err(NotFound)
    else Ok(db.(users := db.users[found.value := db.users[found.value].(isAdmin := true, active := true, managedBy := Some(MANUAL))]))
  }

  /** An applied ownership command: the owners it writes, by username. */
  function Reown(db: Db, owners: map<string, Option<string>>): (r: Db) {
    db.(users := map id | id in db.users ::
                   if db.users[id].username in owners then db.users[id].(managedBy := owners[db.users[id].username]) else db.users[id])
  }

  ghost function OpenSession(db: Db, sid: string, name: string, expires: Time, provider: Option<string>): (r: Result<Db, Refusal>) {
    var found := Find(db.users, NormalizeUsername(name));
    if found.None? then Err(NotFound)
    else Ok(db.(sessions := db.sessions[sid := Session(found.value, provider, expires, None)]))
  }

  function RevokeSession(db: Db, sid: string, now: Time): (r: Db) {
    if sid in db.sessions && db.sessions[sid].revoked.None?
    then db.(sessions := db.sessions[sid := db.sessions[sid].(revoked := Some(now))]) else db
  }

  ghost function RevokeAll(db: Db, name: string, now: Time): (r: Db) {
    var found := Find(db.users, NormalizeUsername(name));
    if found.None? then db else db.(sessions := RevokedFor(db.sessions, found.value, now))
  }

  function PruneSessions(db: Db, cutoff: Time): (r: Db) {
    db.(sessions := map k | k in db.sessions && db.sessions[k].expires > cutoff :: db.sessions[k])
  }

  ghost predicate HasForeignBinding(db: Db, id: UserId, provider: string) {
    exists k :: k in db.identities && db.identities[k] == id && k.0 != provider
  }

  /** Ok's flag says whether a new binding was written. */
  ghost function LinkIdentity(db: Db, provider: string, subject: string, name: string, allowAdditional: bool): (r: Result<(Db, bool), Refusal>) {
    var found := Find(db.users, NormalizeUsername(name));
    if found.None? then Err(NotFound)
    else if (provider, subject) in db.identities then
      if db.identities[(provider, subject)] != found.value then Err(BoundElsewhere) else Ok((db, false))
    else if !allowAdditional && HasForeignBinding(db, found.value, provider) then Err(OtherProvider)
    else Ok((db.(identities := db.identities[(provider, subject) := found.value]), true))
  }

  ghost function AddGrant(db: Db, table: Table, name: string, resource: string): (r: Result<Db, Refusal>) {
    var found := Find(db.users, name);
    if found.None? then Err(NotFound)
    else if Grant(table, found.value, resource) in db.grants then Err(AlreadyExists)
    else Ok(db.(grants := db.grants + {Grant(table, found.value, resource)}))
  }

  function CreateGroups(db: Db, names: seq<string>): (r: Db) {
    db.(groups := db.groups + set n | n in names)
  }

  ghost function AddUserToGroup(db: Db, name: string, group: string): (r: Result<Db, Refusal>) {
    var found := Find(db.users, name);
    if found.None? then Err(NotFound)
    else if group !in db.groups then Err(NoSuchGroup)
    else if (found.value, group) in db.members then Err(AlreadyExists)
    else Ok(db.(members := db.members + {(found.value, group)}))
  }

  ghost function RemoveUserFromGroup(db: Db, name: string, group: string): (r: Result<Db, Refusal>) {
    var found := Find(db.users, name);
    if found.None? then Err(NotFound)
    else if group !in db.groups then Err(NoSuchGroup)
    else if (found.value, group) !in db.members then Err(NotFound)
    else Ok(db.(members := db.members - {(found.value, group)}))
  }

  ghost function SetGroups(db: Db, name: string, names: seq<string>): (r: Result<Db, Refusal>) {
    var found := Find(db.users, name);
    if found.None? then Err(NotFound)
    else if exists n :: n in names && n !in db.groups then Err(NoSuchGroup)
    else Ok(db.(members := (set m | m in db.members && m.0 != found.value) + (set n | n in names :: (found.value, n))))
  }

  // ---------------------------------------------------------------------------------------------
  // Runs
  // ---------------------------------------------------------------------------------------------

  datatype Op =
    | Create(rowId: UserId, name: string, secret: string, isAdmin: bool, isService: bool)
    | Update(name: string, change: Change, writtenBy: Option<string>, adminOverride: bool)
    | Delete(name: string)
    | BreakGlass(name: string)
    | SetOwners(owners: map<string, Option<string>>)
    | Open(sid: string, name: string, expires: Time, via: Option<string>)
    | Revoke(sid: string)
    | RevokeUser(name: string)
    | Sweep
    | Link(provider: string, subject: string, name: string, allowAdditional: bool)
    | GrantTo(table: Table, name: string, resource: string)
    | Populate(names: seq<string>)
    | AddMember(name: string, group: string)
    | RemoveMember(name: string, group: string)
    | SetMembers(name: string, names: seq<string>)
    | Tick(to: Time)

  /** What the environment guarantees about an operation: unused row ids, fresh session ids, a monotone clock. */
  predicate Enabled(s: State, op: Op) {
    match op
    case Create(rowId, _, _, _, _) => rowId !in s.db.users
    case Open(sid, _, _, _) => sid !in s.issued
    case Tick(to) => s.now <= to
    case _ => true
  }

  ghost function Attempt(mode: Enforcement, s: State, op: Op): (r: Result<Db, Refusal>) {
    match op
    case Create(rowId, name, secret, isAdmin, isService) => CreateUser(s.db, rowId, name, secret, isAdmin, isService)
    case Update(name, change, writtenBy, adminOverride) => UpdateUser(s.db, s.now, mode, name, change, writtenBy, adminOverride)
    case Delete(name) => DeleteUser(s.db, name)
    case BreakGlass(name) => RestoreAdmin(s.db, name)
    case SetOwners(owners) => Ok(Reown(s.db, owners))
    case Open(sid, name, expires, provider) => OpenSession(s.db, sid, name, expires, provider)
    case Revoke(sid) => Ok(RevokeSession(s.db, sid, s.now))
    case RevokeUser(name) => Ok(RevokeAll(s.db, name, s.now))
    case Sweep => Ok(PruneSessions(s.db, s.now))
    case Link(provider, subject, name, allow) =>
      (match LinkIdentity(s.db, provider, subject, name, allow)
       case Ok(done) => Ok(done.0)
       case Err(e) => Err(e))
    case GrantTo(table, name, resource) => AddGrant(s.db, table, name, resource)
    case Populate(names) => Ok(CreateGroups(s.db, names))
    case AddMember(name, group) => AddUserToGroup(s.db, name, group)
    case RemoveMember(name, group) => RemoveUserFromGroup(s.db, name, group)
    case SetMembers(name, names) => SetGroups(s.db, name, names)
    case Tick(_) => Ok(s.db)
  }

  /** One step: the transaction's database if it commits, the old one if it is refused. */
  ghost function Step(mode: Enforcement, s: State, op: Op): (r: State) {
    var r := Attempt(mode, s, op);
    State(if r.Ok? then r.value else s.db,
          if op.Tick? then op.to else s.now,
          if op.Open? then s.issued + {op.sid} else s.issued)
  }

  ghost function Run(mode: Enforcement, s: State, ops: seq<Op>): (r: State)
    decreases ops
  {
    if ops == [] then s else Run(mode, Step(mode, s, ops[0]), ops[1..])
  }

  ghost predicate Legal(mode: Enforcement, s: State, ops: seq<Op>)
    decreases ops
  {
    ops == [] || (Enabled(s, ops[0]) && Legal(mode, Step(mode, s, ops[0]), ops[1..]))
  }

  /** The ids in use are ids that were handed out, and the tables are consistent. */
  ghost predicate ValidState(s: State) {
    Valid(s.db) && s.db.sessions.Keys <= s.issued
  }
}
