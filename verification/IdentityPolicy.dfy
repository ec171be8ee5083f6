/**
 Which local account an external identity reaches (mlflow_oidc_auth/identity_resolution.py), and
 whether the login may use or create it (mlflow_oidc_auth/provisioning_policy.py).
 */
module IdentityPolicy {
  import opened Wrappers
  import opened Text
  import opened Ownership
  import opened Accounts
  import opened AccountRuns
  import opened ProviderEntries

  /** The claims consulted: `email` when it is a string, and whether `email_verified` is literally true. */
  datatype Claims = Claims(email: Option<string>, emailVerified: bool)

  datatype Decision = Matched(username: string) | LinkTo(username: string) | CreateNew | Refused

  function EmailFromClaims(claims: Claims): (r: Option<string>) {
    if claims.email.None? then None
    else
      var email := Lower(Strip(claims.email.value));
      if email == "" then None else Some(email)
  }

  /** The domain of a single usable address. */
  function DomainOf(email: string): (r: Option<string>) {
    if Count(email, '@') != 1 then None
    else if Strip(Before(email, '@')) == "" || Strip(After(email, '@')) == "" then None
    else Some(Strip(After(email, '@')))
  }

  predicate DomainAllowed(p: Provider, domain: string) {
    exists i :: 0 <= i < |p.emailDomains| && Lower(p.emailDomains[i]) == domain
  }

  ghost function UserOf(db: Db, pair: (string, string)): (r: Option<string>) {
    if pair in db.identities && db.identities[pair] in db.users then Some(db.users[db.identities[pair]].username) else None
  }

  ghost predicate UserExists(db: Db, name: string) { Find(db.users, NormalizeUsername(name)).Some? }

  /** Some provider other than `provider` has an identity bound to the user of that name. */
  ghost predicate ForeignBinding(db: Db, name: string, provider: string) {
    var found := Find(db.users, NormalizeUsername(name));
    found.Some? && HasForeignBinding(db, found.value, provider)
  }

  ghost function ResolveIdentity(db: Db, p: Provider, subject: Option<string>, claims: Claims, derived: Option<string>): (r: Decision) {
    if subject.None? || Strip(subject.value) == "" then Refused
    else
      var existing := UserOf(db, (p.id, Strip(subject.value)));
      if existing.Some? && existing.value != "" then Matched(existing.value)
      else if p.binding.ByEmail? then ResolveByEmail(db, p, claims, derived)
      else CreateNew
  }

  ghost function ResolveByEmail(db: Db, p: Provider, claims: Claims, derived: Option<string>): (r: Decision) {
    var email := EmailFromClaims(claims);
    if email.None? then Refused
    else if !claims.emailVerified then Refused
    else
      var domain := DomainOf(email.value);
      if domain.None? then Refused
      else if !DomainAllowed(p, domain.value) then Refused
      else if derived.Some? && NormalizeUsername(derived.value) != NormalizeUsername(email.value) then Refused
      else if !UserExists(db, NormalizeUsername(email.value)) then CreateNew
      else if ForeignBinding(db, NormalizeUsername(email.value), p.id) then Refused
      else LinkTo(NormalizeUsername(email.value))
  }

  datatype Outcome = Outcome(allowed: bool, create: bool, username: Option<string>)

  const DENIED := Outcome(false, false, None)

  ghost function ApplyProvisioningPolicy(db: Db, p: Provider, d: Decision, derived: Option<string>): (r: Outcome) {
    match d
    case Refused => DENIED
    case Matched(name) => Outcome(true, false, Some(name))
    case LinkTo(name) => Outcome(true, false, Some(name))
    case CreateNew =>
      if derived.None? || derived.value == "" then DENIED
      else if UserExists(db, derived.value) then
        if !ForeignBinding(db, derived.value, p.id) && p.id == DEFAULT_PROVIDER_ID then Outcome(true, false, derived) else DENIED
      else if p.provisioning != Jit then DENIED
      else Outcome(true, true, derived)
  }

  /** A login: resolve the identity, then apply the provider's policy to the decision. */
  ghost function Login(db: Db, p: Provider, subject: Option<string>, claims: Claims, derived: Option<string>): (r: Outcome) {
    ApplyProvisioningPolicy(db, p, ResolveIdentity(db, p, subject, claims, derived), derived)
  }

  // ---------------------------------------------------------------------------------------------
  // How an existing account can be reached
  // ---------------------------------------------------------------------------------------------

  // These predicates say what they mean in terms of the tables, the claims and the registry entry.

  /** The subject is usable, and its identity with this provider is bound to the account called `name`. */
  ghost predicate BoundBefore(db: Db, p: Provider, subject: Option<string>, name: string) {
    && subject.Some? && Strip(subject.value) != "" && (p.id, Strip(subject.value)) in db.identities
    && var id := db.identities[(p.id, Strip(subject.value))]; id in db.users && db.users[id].username == name
  }

  /** The subject is usable, and its identity with this provider is bound to nobody. */
  predicate Unbound(db: Db, p: Provider, subject: Option<string>) {
    subject.Some? && Strip(subject.value) != "" && (p.id, Strip(subject.value)) !in db.identities
  }

  ghost predicate Taken(db: Db, name: string) {
    exists id :: id in db.users && db.users[id].username == Lower(name)
  }

  /** The account of that name has an identity bound through another provider. */
  ghost predicate HeldByAnother(db: Db, name: string, provider: string) {
    exists id, k :: && id in db.users && db.users[id].username == Lower(name)
                    && k in db.identities && db.identities[k] == id && k.0 != provider
  }

  /** One local part and one domain around a single at-sign, neither of them blank. */
  predicate IsAddress(address: string, local: string, domain: string) {
    && address == local + "@" + domain && '@' !in local && '@' !in domain
    && Strip(local) != "" && Strip(domain) != ""
  }

  /** The provider has asserted `name` as a verified address, and its entry lists the address's domain. */
  ghost predicate SpeaksFor(p: Provider, claims: Claims, name: string) {
    && claims.emailVerified && claims.email.Some? && Lower(Strip(claims.email.value)) == name
    && exists local, domain, d :: IsAddress(name, local, domain) && d in p.emailDomains && Lower(d) == Strip(domain)
  }

  /** The address that names the account reached it, and no other provider holds the account. */
  ghost predicate ReachedByEmail(db: Db, p: Provider, claims: Claims, derived: Option<string>, name: string) {
    && p.binding.ByEmail? && SpeaksFor(p, claims, name)
    && (derived.Some? ==> Lower(derived.value) == name)
    && Taken(db, name) && !HeldByAnother(db, name, p.id)
  }

  /** The deployment's own provider, binding by subject, takes over an account nobody else is bound to. */
  ghost predicate Adopted(db: Db, p: Provider, derived: Option<string>, name: string) {
    && p.id == DEFAULT_PROVIDER_ID && p.binding.BySubject? && derived == Some(name) && name != ""
    && Taken(db, name) && !HeldByAnother(db, name, p.id)
  }

  lemma TakenAndHeld(db: Db, name: string, provider: string)
    requires Valid(db)
    ensures UserExists(db, name) <==> Taken(db, name)
    ensures ForeignBinding(db, name, provider) <==> HeldByAnother(db, name, provider)
  {
    if Taken(db, name) {
      var id :| id in db.users && db.users[id].username == Lower(name);
      FindIs(db.users, id);
    }
  }

  /** An address has a domain exactly when it is one local part and one domain around a single at-sign,
      and then its domain is what follows the at-sign, stripped. */
  lemma DomainFollowsTheAtSign(address: string, d: string)
    ensures DomainOf(address) == Some(d) <==> exists local, domain :: IsAddress(address, local, domain) && d == Strip(domain)
  {
    CountSplits(address, '@');
    if DomainOf(address) == Some(d) {
      CountSplits(After(address, '@'), '@');
      assert IsAddress(address, Before(address, '@'), After(address, '@')) by {
        assert address == Before(address, '@') + "@" + After(address, '@');
      }
    }
    if local, domain :| IsAddress(address, local, domain) && d == Strip(domain) {
      OneAtSign(local, domain);
    }
  }

  lemma OneAtSign(local: string, domain: string)
    requires '@' !in local && '@' !in domain
    ensures var address := local + "@" + domain;
            Count(address, '@') == 1 && Before(address, '@') == local && After(address, '@') == domain
  {
    var address := local + "@" + domain;
    BeforeFirst(local, '@', domain);
    assert address[|local|] == '@';
    CountSplits(address, '@');
    CountSplits(domain, '@');
  }

  /** What the checks on the claims come to, for the name the address gives. */
  lemma AddressChecksAre(p: Provider, claims: Claims, name: string)
    ensures SpeaksFor(p, claims, name) <==>
              && EmailFromClaims(claims) == Some(name) && claims.emailVerified
              && DomainOf(name).Some? && DomainAllowed(p, DomainOf(name).value)
  {
    if SpeaksFor(p, claims, name) {
      var local, domain, d :| IsAddress(name, local, domain) && d in p.emailDomains && Lower(d) == Strip(domain);
      DomainFollowsTheAtSign(name, Strip(domain));
      var i :| 0 <= i < |p.emailDomains| && p.emailDomains[i] == d;
      assert Lower(p.emailDomains[i]) == Strip(domain);
    }
    if EmailFromClaims(claims) == Some(name) && claims.emailVerified && DomainOf(name).Some? && DomainAllowed(p, DomainOf(name).value) {
      DomainFollowsTheAtSign(name, DomainOf(name).value);
      var i :| 0 <= i < |p.emailDomains| && Lower(p.emailDomains[i]) == DomainOf(name).value;
      assert p.emailDomains[i] in p.emailDomains;
    }
  }

  /** A provider binding by email never adopts: when it decides to create, the derived name is free. */
  lemma EmailBoundProvidersNeverAdopt(db: Db, p: Provider, subject: Option<string>, claims: Claims, derived: Option<string>)
    requires p.binding.ByEmail? && ResolveIdentity(db, p, subject, claims, derived) == CreateNew && derived.Some?
    requires Valid(db)
    ensures !Taken(db, derived.value)
  {
    LowerIdempotent(Strip(claims.email.value));
    TakenAndHeld(db, derived.value, p.id);
  }

  /** A login may proceed as an existing account in exactly three ways: its identity was already bound
      to it, or, for an identity bound to nobody, an authorised verified address or adoption by the
      default provider reached an account no other provider owns. */
  lemma ExistingAccountsAreReachedInThreeWays(db: Db, p: Provider, subject: Option<string>, claims: Claims, derived: Option<string>, name: string)
    requires Valid(db) && StoredNames(db)
    ensures var out := Login(db, p, subject, claims, derived);
            (out.allowed && !out.create && out.username == Some(name))
            <==>
            || BoundBefore(db, p, subject, name)
            || (Unbound(db, p, subject) && (ReachedByEmail(db, p, claims, derived, name) || Adopted(db, p, derived, name)))
  {
    TakenAndHeld(db, name, p.id);
    AddressChecksAre(p, claims, name);
    if subject.Some? && Strip(subject.value) != "" && UserOf(db, (p.id, Strip(subject.value))).None? {
      UnboundIdentitiesReach(db, p, subject, claims, derived, name);
    }
  }

  /** The two ways of an identity bound to nobody, in the checks' own terms. */
  lemma UnboundIdentitiesReach(db: Db, p: Provider, subject: Option<string>, claims: Claims, derived: Option<string>, name: string)
    requires subject.Some? && Strip(subject.value) != "" && UserOf(db, (p.id, Strip(subject.value))).None?
    ensures var out := Login(db, p, subject, claims, derived);
            (out.allowed && !out.create && out.username == Some(name))
            <==>
            || (&& p.binding.ByEmail? && claims.emailVerified && EmailFromClaims(claims) == Some(name)
                && DomainOf(name).Some? && DomainAllowed(p, DomainOf(name).value)
                && (derived.Some? ==> Lower(derived.value) == name)
                && UserExists(db, name) && !ForeignBinding(db, name, p.id))
            || (&& p.id == DEFAULT_PROVIDER_ID && p.binding.BySubject? && derived == Some(name) && name != ""
                && UserExists(db, name) && !ForeignBinding(db, name, p.id))
  {
    if claims.email.Some? {
      LowerIdempotent(Strip(claims.email.value));
    }
  }

  /** A login creates an account exactly for an identity bound to nobody, under a derived name nobody
      has, through a provider that creates users and, if it binds by email, has asserted that name as a
      verified address in a domain it may speak for. */
  lemma CreationNeedsAFreeName(db: Db, p: Provider, subject: Option<string>, claims: Claims, derived: Option<string>)
    requires Valid(db) && StoredNames(db)
    ensures var out := Login(db, p, subject, claims, derived);
            out.create <==>
              && derived.Some? && derived.value != "" && !Taken(db, derived.value) && p.provisioning == Jit
              && Unbound(db, p, subject) && (p.binding.ByEmail? ==> SpeaksFor(p, claims, Lower(derived.value)))
    ensures var out := Login(db, p, subject, claims, derived); out.create ==> out.allowed && out.username == derived
  {
    if claims.email.Some? {
      LowerIdempotent(Strip(claims.email.value));
    }
    if derived.Some? {
      LowerIdempotent(derived.value);
      TakenAndHeld(db, derived.value, p.id);
      AddressChecksAre(p, claims, Lower(derived.value));
    }
  }

  /** An account another provider owns is out of reach: unless the identity is already bound to it, no
      login through this provider proceeds as it, whatever the claims say. */
  lemma ForeignAccountsAreOutOfReach(db: Db, p: Provider, subject: Option<string>, claims: Claims, derived: Option<string>, name: string)
    requires Valid(db) && StoredNames(db)
    requires HeldByAnother(db, name, p.id) && !BoundBefore(db, p, subject, name)
    ensures Login(db, p, subject, claims, derived).username != Some(name)
  {
    ExistingAccountsAreReachedInThreeWays(db, p, subject, claims, derived, name);
    CreationNeedsAFreeName(db, p, subject, claims, derived);
  }

  /** A link written long after its decision still finds the account unowned by others: the binding
      exists afterwards only if it did before or no other provider holds the account now. */
  lemma StaleLinksAreRechecked(db: Db, provider: string, subject: string, name: string)
    requires Valid(db)
    ensures var r := LinkIdentity(db, provider, subject, name, false);
            r.Ok? ==>
              && UserOf(r.value.0, (provider, subject)) == Some(NormalizeUsername(name))
              && (r.value.1 <==> UserOf(db, (provider, subject)).None?)
              && (r.value.1 ==> !ForeignBinding(db, name, provider))
  {
  }

  // ---------------------------------------------------------------------------------------------
  // A decision, and a commit any number of steps later
  // ---------------------------------------------------------------------------------------------

  /** What made a login proceed as an existing account. */
  ghost predicate Reached(db: Db, p: Provider, subject: string, claims: Claims, derived: Option<string>, name: string) {
    || BoundBefore(db, p, Some(subject), name)
    || (Unbound(db, p, Some(subject))
        && (ReachedByEmail(db, p, claims, derived, name) || Adopted(db, p, derived, name)))
  }

  ghost predicate OnlyFrom(db: Db, id: UserId, provider: string) {
    forall k :: k in db.identities && db.identities[k] == id ==> k.0 == provider
  }

  /** A login decides at one state, other calls run, and then its link commits. The pair ends up bound to
      the account that has the decided name at the commit. For an existing account that is the one the
      decision reached, in one of the three ways, in its own row, if and only if no deletion of the name
      committed in between; otherwise, and for a new account, it is one a creation in between made. A
      binding written by the commit is the account's only provider. */
  lemma ALateCommitBindsTheDecidedAccount(mode: Enforcement, s: State, ops: seq<Op>, p: Provider, subject: string, claims: Claims,
                                          derived: Option<string>, name: string)
    requires ValidState(s) && StoredNames(s.db) && Legal(mode, s, ops)
    requires var out := Login(s.db, p, Some(subject), claims, derived); out.allowed && out.username == Some(name)
    requires LinkIdentity(Run(mode, s, ops).db, p.id, Strip(subject), name, false).Ok?
    ensures var n := NormalizeUsername(name);
            var out := Login(s.db, p, Some(subject), claims, derived);
            var later := Run(mode, s, ops).db;
            var (committed, written) := LinkIdentity(later, p.id, Strip(subject), name, false).value;
            var pair := (p.id, Strip(subject));
            && pair in committed.identities && Find(later.users, n) == Some(committed.identities[pair])
            && (written ==> pair !in later.identities && OnlyFrom(committed, committed.identities[pair], p.id))
            && (MadeAlong(mode, s, ops, n, committed.identities[pair]) <==> out.create || RemovedAlong(mode, s, ops, n))
            && (!out.create ==> Reached(s.db, p, subject, claims, derived, name))
            && (!out.create && !RemovedAlong(mode, s, ops, n) ==> Find(s.db.users, n) == Some(committed.identities[pair]))
  {
    var n := NormalizeUsername(name);
    RunKeepsValid(mode, s, ops);
    DecidedNamesResolve(s.db, p, subject, claims, derived, name);
    AccountsAreKeptOrMade(mode, s, ops, n, Find(Run(mode, s, ops).db.users, n).value);
  }

  lemma DecidedNamesResolve(db: Db, p: Provider, subject: string, claims: Claims, derived: Option<string>, name: string)
    requires Valid(db) && StoredNames(db)
    requires var out := Login(db, p, Some(subject), claims, derived); out.allowed && out.username == Some(name)
    ensures var out := Login(db, p, Some(subject), claims, derived);
            && (!out.create ==> Reached(db, p, subject, claims, derived, name) && Find(db.users, NormalizeUsername(name)).Some?)
            && (out.create ==> Find(db.users, NormalizeUsername(name)).None?)
  {
    ExistingAccountsAreReachedInThreeWays(db, p, Some(subject), claims, derived, name);
    CreationNeedsAFreeName(db, p, Some(subject), claims, derived);
    if BoundBefore(db, p, Some(subject), name) {
      var id := db.identities[(p.id, Strip(subject))];
      assert NormalizeUsername(db.users[id].username) == db.users[id].username;
      FindIs(db.users, id);
    }
    TakenAndHeld(db, name, p.id);
  }

  /** And for as long as the pair stays bound after the commit, it keeps the row bound then, which keeps
      the decided name and whose account no call deletes. */
  lemma TheBindingKeepsTheDecidedName(mode: Enforcement, s: State, ops: seq<Op>, p: Provider, subject: string, claims: Claims,
                                      derived: Option<string>, name: string, more: seq<Op>)
    requires ValidState(s) && StoredNames(s.db) && Legal(mode, s, ops)
    requires var out := Login(s.db, p, Some(subject), claims, derived); out.allowed && out.username == Some(name)
    requires LinkIdentity(Run(mode, s, ops).db, p.id, Strip(subject), name, false).Ok?
    requires var committed := Step(mode, Run(mode, s, ops), Link(p.id, Strip(subject), name, false));
             Legal(mode, committed, more) && BoundThroughout(mode, committed, more, (p.id, Strip(subject)))
    ensures var committed := Step(mode, Run(mode, s, ops), Link(p.id, Strip(subject), name, false));
            var pair := (p.id, Strip(subject));
            && UserOf(Run(mode, committed, more).db, pair) == Some(NormalizeUsername(name))
            && Run(mode, committed, more).db.identities[pair] == committed.db.identities[pair]
            && !RemovedAlong(mode, committed, more, NormalizeUsername(name))
  {
    var later := Run(mode, s, ops);
    var op := Link(p.id, Strip(subject), name, false);
    var committed := Step(mode, later, op);
    RunKeepsValid(mode, s, ops);
    ALateCommitBindsTheDecidedAccount(mode, s, ops, p, subject, claims, derived, name);
    StepKeepsValid(mode, later, op);
    IdentitiesAreNeverRepointed(mode, committed, more, (p.id, Strip(subject)));
    BoundAccountsAreNotRemoved(mode, committed, more, (p.id, Strip(subject)), NormalizeUsername(name));
  }

  /** The exception for a deletion is needed: a link may bind an account that was made anew under the
      decided name, in a new row or in the old one, which the decision never looked at. */
  lemma ARecreatedAccountCanBeBound(mode: Enforcement, s: State, p: Provider, subject: string, claims: Claims, name: string, rowId: UserId)
    requires ValidState(s) && StoredNames(s.db)
    requires p.id == DEFAULT_PROVIDER_ID && p.binding.BySubject? && Strip(subject) != ""
    requires name != "" && NormalizeUsername(name) == name && Find(s.db.users, name).Some? && !OnlyActiveAdmin(s.db.users, Find(s.db.users, name).value)
    requires forall k :: k in s.db.identities ==> s.db.identities[k] != Find(s.db.users, name).value && k != (p.id, Strip(subject))
    requires rowId !in s.db.users || rowId == Find(s.db.users, name).value
    ensures var ops := [Delete(name), Create(rowId, name, "", false, false)];
            var out := Login(s.db, p, Some(subject), claims, Some(name));
            var r := LinkIdentity(Run(mode, s, ops).db, p.id, Strip(subject), name, false);
            && Legal(mode, s, ops) && out.allowed && !out.create && out.username == Some(name)
            && r.Ok? && r.value.1 && r.value.0.identities[(p.id, Strip(subject))] == rowId
            && MadeAlong(mode, s, ops, name, rowId)
  {
    DeletedAndMadeAnew(mode, s, name, rowId);
    AccountsAreKeptOrMade(mode, s, [Delete(name), Create(rowId, name, "", false, false)], name, rowId);
  }

  lemma DeletedAndMadeAnew(mode: Enforcement, s: State, name: string, rowId: UserId)
    requires ValidState(s) && name != "" && NormalizeUsername(name) == name && Find(s.db.users, name).Some?
    requires !OnlyActiveAdmin(s.db.users, Find(s.db.users, name).value)
    requires rowId !in s.db.users || rowId == Find(s.db.users, name).value
    ensures var ops := [Delete(name), Create(rowId, name, "", false, false)];
            && Legal(mode, s, ops) && RemovedAlong(mode, s, ops, name)
            && Find(Run(mode, s, ops).db.users, name) == Some(rowId)
            && Run(mode, s, ops).db.identities == Without(s.db, Find(s.db.users, name).value).identities
            && forall k :: k in Run(mode, s, ops).db.identities ==> Run(mode, s, ops).db.identities[k] != rowId
  {
    var delete, create := Delete(name), Create(rowId, name, "", false, false);
    var deleted := Step(mode, s, delete);
    StepMovesAName(mode, s, delete, name);
    StepKeepsValid(mode, s, delete);
    StepMovesAName(mode, deleted, create, name);
    var ops := [delete, create];
    assert ops[1..] == [create] && ops[1..][1..] == [];
    assert Run(mode, s, ops) == Run(mode, deleted, ops[1..]) == Step(mode, deleted, create);
  }
}
