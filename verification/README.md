# MLflow OIDC Auth: models and proofs

`mlflow-oidc-auth` puts authentication and authorization in front of an MLflow server. This project
models the parts of it that decide who is let in, which account a login reaches, what a filtered
search returns and what an administrator's bulk change leaves behind, and proves what those parts
keep for every input and every run. `dafny verify dfyconfig.toml` checks all of it.

The modules, by the part of the system they cover:

- **Search pages.** `SearchRefill` is the after-request hook that removes unreadable rows from a page
  of search results, refills it and writes a new resume token. Both refill loops are proved against
  one row-at-a-time scan, and the chain of requests a client makes by following the tokens is proved
  to deliver the readable rows, in order and once each. A token is the offset it encodes.
- **Request ambiguity.** `ProtoNames` and `RequestGuard` show that what authorization reads from a
  request is what MLflow's own ProtoJSON parse yields. `RequestGuard` also holds the reference parser:
  keys in order, both spellings of a field, the last one wins.
- **Accounts.** `AccountEffects` says in plain fields what each call below writes and refuses. `Accounts` is the account store as a state machine, one step per repository
  transaction, with a monotone clock, fresh session ids and row ids that may be reused.
  `AccountRuns`, `SweepRuns` and `OwnershipRuns` prove what every run keeps. `AccountRepository` is
  the same store as mutable tables; each of its methods is proved to commit exactly the state
  machine's transaction of that name, or to refuse it and change nothing. `Ownership` decides which
  source may write a row.
- **Logins.** `LoginAttempts` interleaves any number of callbacks, whose `consume` is two steps, with
  creations, sweeps and the clock. `IdentityPolicy` decides which account an external identity
  reaches; `GroupSync` which groups it ends up in.
- **Providers and tokens.** `ProviderEntries` validates one registry entry, by the
  rules `EntryRules` lists, and `ProviderRegistry`
  loads them all; `TokenRouting` shows that choosing a provider by a token's unverified issuer
  accepts exactly what trying every provider in full would. `ClientSecrets` shows that no two
  providers share a client secret, `ServiceAccounts` that Kubernetes subjects and usernames do not
  collide.
- **Permissions through groups.** `GroupPermissions` proves the folds over a user's group rows.
- **Operations.** `OwnershipJournal` is the ownership reconcile command and its undo;
  `PrefixInvalidation` compares prefix deletion on Redis with the in-process cache.
- `Text` and `Wrappers` hold string helpers and `Option`/`Result`.

## Where the code and its promises differ

Each of these is proved as an exact condition or as a concrete input, by the members named.

- A search page asks the store for the workspace of a first-page row but trusts the workspace a
  refetched row carries. A row is readable when it passes the first-page check. The chains of pages
  from an offset deliver exactly the readable rows, for every page size, if and only if no row the two
  checks disagree about comes after a row that is not readable
  (`SearchRefill.OffsetChainIsExactIffSettled`). The logged-model search always asks the store and
  needs no condition.
- `proto_request_value` derives the second spelling of a field, while the collision check takes it
  from the descriptor's `json_name`. They agree on every admitted request that is not a GET or HEAD
  if and only if the descriptor has the derived name
  (`RequestGuard.RouteMaps.ReaderIsExactIffDefaultJsonName`). Where a member below speaks of all
  methods, that a field's `json_name` is the derived one is its hypothesis.
- A login attempt read in time can still be lost: a second callback that reads it after it expired may
  win the delete and hand it to nobody (`LoginAttempts.ALateReaderCanBurnAnAttempt`). Which of the two
  happens is decided by `LoginAttempts.HandedOutIffClaimedInTime` and
  `LoginAttempts.LostIffClaimedLate`. A sweep between a callback's read and its delete shows in the
  result in exactly one case (`LoginAttempts.SweepDuringACallbackShowsExactlyWhen`).
- The Redis backend escapes the prefix to delete but not its own namespace. Deletion is literal if and
  only if the namespace has no backslash, star, question mark or opening bracket
  (`PrefixInvalidation.PatternIsLiteralIffNamespaceClean`).
- The check for a DNS label admits one trailing line feed, because its pattern ends in `$`
  (`ServiceAccounts.TheCheckAdmitsATrailingLineFeed`). A registry allowlist keeps it out of the
  namespace but not out of the account's name (`ServiceAccounts.ALineFeedInTheNameIsAdmitted`): an
  admitted account is one Kubernetes could have if and only if the subject has no line feed
  (`ProviderEntries.AdmittedNamespacesAreReal`).
- A login's link commits after its decision and checks the account's name again, not its row. It binds
  the account the decision reached if and only if no deletion of that name committed in between
  (`IdentityPolicy.ALateCommitBindsTheDecidedAccount`); after a deletion it binds one made anew, perhaps
  in the old row (`IdentityPolicy.ARecreatedAccountCanBeBound`).
- The one retry of token validation is for a rotated key, but only a signature the held keys refute
  leads to it. A token that names a key they do not have is refused without a fetch
  (`TokenRouting.RotatedKeysArePickedUpIffRefuted`), unless the token library reports that case as a
  bad signature too.
- Prefixing group names with the provider's id keeps them away from colon-free local groups, but not
  from everything: the default provider's raw names may contain another provider's prefix, and one id
  may extend another past a colon (`GroupSync.ProviderGroupsMeetIff`).
- A group permission whose name is unknown is an error only when there is a second row to compare it
  with; alone it is returned unread (`GroupPermissions.FailsExactlyWhen`).
- The flat fallback of the client settings for a legacy deployment without a default provider is
  unreachable: the loader never makes such a registry (`ClientSecrets.SettingsComeFromTheRegistry`).

## Model

| member | source | states |
|---|---|---|
| SearchRefill.RequestMemo.CanRead | mlflow_oidc_auth/hooks/after_request.py:73-101 | the memoised permission check answers what the plain one would and only ever adds entries |
| SearchRefill.RequestMemo.CanAccessWorkspace | mlflow_oidc_auth/hooks/after_request.py:168-199 | the memoised workspace check answers what the plain one would; no workspace, or workspaces switched off, is access |
| SearchRefill.FilterFirstPage | mlflow_oidc_auth/hooks/after_request.py:206-231 | the two in-place removal passes leave exactly the rows that are readable and in a readable workspace, in order |
| SearchRefill.RefillTrimmed | mlflow_oidc_auth/hooks/after_request.py:231-254 | the trim-then-filter loop terminates and collects what a scan of one raw row at a time would, resuming where that scan stops |
| SearchRefill.FilterSearchByOffset | mlflow_oidc_auth/hooks/after_request.py:202-256 | the whole hook returns the page the scan defines |
| SearchRefill.PagesHoldExactlyTheVisibleRows | mlflow_oidc_auth/hooks/after_request.py:168-254 | of the stretch a response covers it shows exactly the rows the user may read in a workspace the user may read: the store's for first-page rows, the row's own for refetched ones |
| SearchRefill.FilterSearchLoggedModels | mlflow_oidc_auth/hooks/after_request.py:369-455 | the for/else refill with its break index terminates and returns the page the scan defines, with a token only when rows remain |
| SearchRefill.ScanBatch | mlflow_oidc_auth/hooks/after_request.py:426-454 | one fetched batch advances the scan, stops at the row that fills the page, and moves the offset strictly forward |
| SearchRefill.ScanCovers | mlflow_oidc_auth/hooks/after_request.py:231-254 | a scan collects exactly the passing rows of the stretch it covers, fits its room and stops early only when full |
| SearchRefill.ScanSplits | mlflow_oidc_auth/hooks/after_request.py:231-254 | a scan can be interrupted after any stretch no longer than its free room and resumed with nothing lost or repeated |
| SearchRefill.ChainDeliversTheReadableRows | mlflow_oidc_auth/hooks/after_request.py:206-254 | for any list, offset and page size, following the tokens to the end yields exactly the readable rows from the offset, in order and once each, on pages within max_results; the logged-model search without condition, the offset searches when no disputed row follows a failing one |
| SearchRefill.OffsetChainIsExactIffSettled | mlflow_oidc_auth/hooks/after_request.py:216-248 | the chains from an offset deliver the readable rows for every page size if and only if, from there on, no row on which the two workspace checks disagree comes after a row that fails the first-page check |
| SearchRefill.RefetchingADisputedRowShows | mlflow_oidc_auth/hooks/after_request.py:216-248 | the page size that makes the last such row a refetched one loses it or adds it |
| SearchRefill.OffsetChainMeetsTheRefetchCheckIffChecksAgree | mlflow_oidc_auth/hooks/after_request.py:231-254 | measured instead by the refetch check, the chains from every offset deliver its rows if and only if the two checks agree on every row |
| SearchRefill.RefillsAgree | mlflow_oidc_auth/hooks/after_request.py:231-254 | when no disputed row follows a failing one, both refills return the same rows and resume point, and differ only by a token past the last row when a refill fills the page at the end of the list |
| SearchRefill.RefillsReturnTheSameRowsIffSettled | mlflow_oidc_auth/hooks/after_request.py:426-454 | both refills return the same rows for every page size if and only if no disputed row follows a failing one |
| SearchRefill.PastTheEnd | mlflow_oidc_auth/hooks/after_request.py:202-256 | an offset past the end is answered by one empty final page |
| ProtoNames.SnakeToCamelIsJsonName | mlflow_oidc_auth/hooks/dual_spelling_guard.py:225-228 | splitting at underscores and capitalising gives the ProtoJSON name on every identifier |
| ProtoNames.OneSpellingIffNoUnderscore | mlflow_oidc_auth/hooks/dual_spelling_guard.py:88-101 | a name without an underscore has one spelling, and one with an underscore has a strictly shorter second one without any |
| RequestGuard.RouteMaps.RegisterRoute | mlflow_oidc_auth/hooks/dual_spelling_guard.py:88-101 | registration keeps every table entry stemming from a registered route and leaves the new route's entries for all its methods |
| RequestGuard.RouteMaps.TablesKnowTheRoute | mlflow_oidc_auth/hooks/dual_spelling_guard.py:156-168 | a lookup gives the two-spelling fields of the one route that serves the request |
| RequestGuard.RouteMaps.ServedRequestsAreProto | mlflow_oidc_auth/hooks/dual_spelling_guard.py:171-182 | every request a registered route serves is recognised, a HEAD as its GET |
| RequestGuard.RouteMaps.ProtoRequestsAreTheServedOnes | mlflow_oidc_auth/hooks/dual_spelling_guard.py:171-182 | a request is taken for one MLflow parses if and only if some registered route serves it, by path or by pattern, a HEAD as its GET |
| RequestGuard.RouteMaps.AuthorizationSeesWhatMlflowParses | mlflow_oidc_auth/hooks/dual_spelling_guard.py:196-263 | on every request both checks admit, for every method including HEAD, authorization reads each field whose `json_name` is the derived one exactly as MLflow parses it |
| RequestGuard.RouteMaps.AdmittedExactlyWhen | mlflow_oidc_auth/hooks/dual_spelling_guard.py:206-287 | a request is admitted if and only if it is a GET with a query string, another GET or HEAD whose body gives no field, or any other request whose body spells no field two ways |
| RequestGuard.RouteMaps.ArgsCountOnlyOnGet | mlflow_oidc_auth/hooks/dual_spelling_guard.py:196-203 | off GET neither the value authorization reads nor either check depends on the query string |
| RequestGuard.RouteMaps.ArgsDecideOnGet | mlflow_oidc_auth/hooks/dual_spelling_guard.py:231-263 | on a GET with a query string the body counts for nothing and the first argument of a name is read |
| RequestGuard.RouteMaps.TheLastEntryIsRead | mlflow_oidc_auth/hooks/dual_spelling_guard.py:231-263 | from a body the last entry under the spelling read is the value, a null none, and the field's own name goes before the derived one |
| RequestGuard.RouteMaps.NoCollisionMeansOneSpelling | mlflow_oidc_auth/hooks/dual_spelling_guard.py:206-222 | a body the collision check admits spells no field two ways |
| RequestGuard.RouteMaps.CollisionCheckIsNeeded | mlflow_oidc_auth/hooks/before_request.py:769-780 | without the collision check every two-spelling field has a body authorization and MLflow read differently |
| RequestGuard.RouteMaps.ReaderIsExactIffDefaultJsonName | mlflow_oidc_auth/hooks/dual_spelling_guard.py:231-263 | off GET and HEAD the reader is right on all admitted requests if and only if the descriptor's spelling is the derived one |
| RequestGuard.LastSpellingIsTheOnlyOne | mlflow_oidc_auth/hooks/dual_spelling_guard.py:231-263 | with one spelling present, last-key-wins parsing and a lookup under that spelling agree |
| RequestGuard.DefaultJsonNamesAreWellFormed | mlflow_oidc_auth/hooks/dual_spelling_guard.py:225-228 | distinct derived names keep every spelling of every field apart |
| Ownership.ReportRecordsWhatEnforceRefuses | mlflow_oidc_auth/ownership.py:97-130 | report mode flags exactly the writes enforce mode refuses |
| AccountRuns.RunKeepsValid | mlflow_oidc_auth/repository/user.py:394-474 | in every run names stay unique and every user-keyed row refers to an existing user |
| AccountRuns.NewAccountsStartEmpty | mlflow_oidc_auth/repository/user.py:404-474 | an account created at the end of any run, under a recycled name or row id, starts with no session, identity, membership or permission |
| AccountRuns.RunKeepsStoredNames | mlflow_oidc_auth/repository/user.py:94-105 | usernames stay folded and non-empty |
| AccountRuns.RunKeepsAnAdmin | mlflow_oidc_auth/repository/user.py:113-142 | no run in any enforcement mode goes from a state with an active administrator to one without |
| AccountRuns.GuardIsExact | mlflow_oidc_auth/repository/user.py:358-366 | the guard refuses only changes that would have left no active administrator |
| AccountRuns.BreakGlassRestores | mlflow_oidc_auth/db/cli.py:50-57 | the break-glass command gives any existing user back an active administrator, from any state |
| AccountRuns.SessionsDieOnce | mlflow_oidc_auth/repository/auth_session.py:97-125 | an issued session id that fails to resolve once never resolves again, through any run |
| AccountRuns.DeactivationEndsSessionsForGood | mlflow_oidc_auth/repository/user.py:365-381 | every session existing when a deactivation commits stays dead, reactivation included |
| AccountRuns.NoRequestProceedsWhileInactive | mlflow_oidc_auth/middleware/auth_middleware.py:620-664 | from a deactivation until something reactivates or replaces the account no request proceeds as its user by password, token or session |
| AccountRuns.IdentitiesAreNeverRepointed | mlflow_oidc_auth/repository/user_identity.py:88-113 | while a (provider, subject) pair stays bound it names the same account, however stale the links |
| AccountRuns.SecondProvidersAreDeliberate | mlflow_oidc_auth/repository/user_identity.py:95-107 | an account gets bindings of two providers only through a link that allowed it |
| AccountRuns.BindingStems | mlflow_oidc_auth/repository/user_identity.py:58-113 | a binding after a step was there before or was written by that step's link, past its checks |
| AccountEffects.CreationWrites | mlflow_oidc_auth/repository/user.py:144-168 | a creation commits exactly for a free non-empty name and writes an active row with the given secret and roles, owned by hand |
| AccountEffects.UpdateWrites | mlflow_oidc_auth/repository/user.py:347-391 | a committed update gives each field passed its value, a new secret the call's expiry, leaves every other field and every other user |
| AccountEffects.UpdateIsRefusedExactlyWhen | mlflow_oidc_auth/repository/user.py:327-366 | an update is refused for a missing account, for a row enforcement protects, and for the last active administrator, told apart in this order, and for nothing else |
| AccountEffects.DeletionRemoves | mlflow_oidc_auth/repository/user.py:394-478 | a deletion is refused exactly for a missing account and the last active administrator; it takes the rows keyed by the account and leaves all others |
| AccountEffects.CommandsWrite | mlflow_oidc_auth/db/cli.py:50-57 | break glass writes two roles and the owner, an ownership command the owner alone |
| AccountEffects.OpenedSessionsResolve | mlflow_oidc_auth/repository/auth_session.py:61-125 | an opened session resolves to its account's current roles until it expires |
| AccountEffects.SessionsResolveExactlyWhen | mlflow_oidc_auth/repository/auth_session.py:97-125 | a session resolves exactly while its row is there, unrevoked and unexpired |
| AccountEffects.RevocationsEndExactly | mlflow_oidc_auth/repository/auth_session.py:127-159 | revoking a session or a user's sessions ends exactly those |
| AccountEffects.DeactivationEndsExactly | mlflow_oidc_auth/repository/user.py:369-387 | an update ends its account's sessions exactly when it deactivates it |
| AccountEffects.SweepDropsExactlyTheExpired | mlflow_oidc_auth/repository/auth_session.py:173-183 | a sweep drops exactly the expired rows |
| AccountEffects.LinkWrites | mlflow_oidc_auth/repository/user_identity.py:58-113 | a link is refused exactly for a missing account, a pair bound elsewhere or a second provider not allowed, and binds exactly its pair |
| AccountEffects.PasswordsProceedExactlyWhen | mlflow_oidc_auth/repository/user.py:480-495 | a password request proceeds exactly when the account is active, its secret unexpired and the stored hash matches |
| AccountEffects.TokensProceedExactlyWhen | mlflow_oidc_auth/middleware/auth_middleware.py:542-581 | a token request proceeds exactly when the account it names is there and active |
| AccountEffects.SessionsProceedExactlyWhen | mlflow_oidc_auth/middleware/auth_middleware.py:420-487 | a session request proceeds exactly when cookie and session are live and the account is active |
| AccountEffects.TheNewPasswordDecides | mlflow_oidc_auth/repository/user.py:347-352 | after an update that sets a password, a password request is decided by the new hash and expiry |
| SweepRuns.SweepingIsInvisible | mlflow_oidc_auth/repository/auth_session.py:173-183 | two runs that differ only in sweeps end in states that agree on everything but dead session rows |
| SweepRuns.AlikeAnswersAlike | mlflow_oidc_auth/repository/auth_session.py:110-125 | such states answer every session lookup alike |
| AccountEffects.ListedSessionsAreTheLiveOnes | mlflow_oidc_auth/repository/auth_session.py:161-171 | the sessions listed for an account are its unrevoked and unexpired rows |
| SweepRuns.StepKeepsAlike | mlflow_oidc_auth/repository/auth_session.py:127-171 | a call is accepted in one such state exactly when it is in the other, and keeps them so |
| OwnershipRuns.OffAndReportAgree | mlflow_oidc_auth/ownership.py:117-130 | off and report mode end any run in the same database |
| OwnershipRuns.ReportPredictsEnforce | mlflow_oidc_auth/repository/user.py:327-346 | a report run that recorded nothing but overrides ends where the enforced run of the same calls ends |
| OwnershipRuns.QuietIffSameVerdicts | mlflow_oidc_auth/repository/user.py:327-346 | the recording is quiet exactly when enforcement would have refused no accepted call |
| OwnershipRuns.OwnedRowsAreOnlyWrittenByTheirOwner | mlflow_oidc_auth/repository/user.py:327-346 | under enforcement an externally owned row changes only by its owner's updates, an override, a deletion, break glass or an ownership command that re-owns it |
| OwnershipRuns.OnlyTheWordEnforceChangesARun | mlflow_oidc_auth/ownership.py:68-80 | a setting makes some run end differently from an unguarded one if and only if it spells `enforce`; anything unreadable guards nothing |
| OwnershipRuns.OnlyTheWordOffSilences | mlflow_oidc_auth/ownership.py:68-130 | a setting silences the recording of a foreign write if and only if it spells `off` |
| OwnershipRuns.RecordedExactlyWhen | mlflow_oidc_auth/ownership.py:97-130 | a report run records exactly the committed updates of rows another external source owns, overrides included |
| OwnershipRuns.ReconcilingIsAStep | mlflow_oidc_auth/db/cli.py:154-196 | an applied reconciliation is a step of the account machine that leaves in the ownership column what the command computes |
| OwnershipRuns.RestoringIsAStep | mlflow_oidc_auth/db/cli.py:236-251 | so is an applied restoration |
| AccountRepository.AccountTables.WouldLeaveNoAdmin | mlflow_oidc_auth/repository/user.py:113-142 | the count of other active administrators is zero exactly when this one is the last |
| AccountRepository.AccountTables.CreateUser | mlflow_oidc_auth/repository/user.py:144-168 | commits the create transaction, or refuses an empty or taken name and changes nothing |
| AccountRepository.AccountTables.UpdateUser | mlflow_oidc_auth/repository/user.py:263-392 | commits the update transaction: ownership check, administrator guard, field assignments, revocation on deactivation; or refuses and changes nothing |
| AccountRepository.AccountTables.RevokeRows | mlflow_oidc_auth/repository/auth_session.py:141-159 | stamps exactly the user's unrevoked session rows |
| AccountRepository.AccountTables.DeleteUser | mlflow_oidc_auth/repository/user.py:394-478 | commits the delete transaction over all dependent tables, or refuses and changes nothing |
| AccountRepository.AllTablesCleared | mlflow_oidc_auth/repository/user.py:404-474 | clearing the listed tables one by one leaves no permission row of the user in any table and every other row in place |
| AccountRepository.AccountTables.OpenSession | mlflow_oidc_auth/repository/auth_session.py:61-95 | stores a live row for an existing user under a fresh id, or refuses |
| AccountRepository.AccountTables.Resolve | mlflow_oidc_auth/repository/auth_session.py:97-125 | answers what the state machine's lookup answers: unrevoked, unexpired, joined with its user |
| AccountRepository.AccountTables.Revoke | mlflow_oidc_auth/repository/auth_session.py:127-139 | stamps a live row once and says whether it was live |
| AccountRepository.AccountTables.Link | mlflow_oidc_auth/repository/user_identity.py:58-113 | commits the link transaction: an existing binding is kept or refused, a second provider needs permission |
| LoginAttempts.EveryAttemptHasOneFate | mlflow_oidc_auth/repository/auth_state.py:100-133 | in every interleaving each created attempt is waiting, handed out, swept or burned by a late reader, and only one of these |
| LoginAttempts.HandedOutAtMostOnce | mlflow_oidc_auth/repository/auth_state.py:110-133 | no attempt is handed out twice, and always with the provider and redirect it was created with |
| LoginAttempts.CreatedAttemptsComeBack | mlflow_oidc_auth/repository/auth_state.py:70-133 | a callback gets the state, provider and redirect its login stored until the row expires, and nothing from then on |
| LoginAttempts.HandedOutIffClaimedInTime | mlflow_oidc_auth/repository/auth_state.py:110-133 | in any run an attempt is handed out exactly once if and only if it was before, or some callback that read it in time is the one whose delete finds the row |
| LoginAttempts.LostIffClaimedLate | mlflow_oidc_auth/repository/auth_state.py:122-133 | in any run an attempt is claimed and lost if and only if it was before, or the callback whose delete finds the row had read it too late |
| LoginAttempts.HandedOutExactlyOnce | mlflow_oidc_auth/repository/auth_state.py:110-133 | in particular, one only ever read in time, never swept expired and reached by some callback's second step is handed out exactly once |
| LoginAttempts.ALateReaderCanBurnAnAttempt | mlflow_oidc_auth/repository/auth_state.py:110-133 | a run in which an attempt read in time is handed to nobody |
| LoginAttempts.SweepDuringACallbackShowsExactlyWhen | mlflow_oidc_auth/repository/auth_state.py:135-145 | a sweep between read and delete changes the outcome if and only if the attempt was held in time, its row is there and has expired meanwhile |
| LoginAttempts.PruningIsInvisible | mlflow_oidc_auth/repository/auth_state.py:135-145 | with callbacks run whole, sweeps anywhere in a run change no result |
| LoginAttempts.ConsumeIs | mlflow_oidc_auth/repository/auth_state.py:100-133 | a whole callback hands out exactly an existing unexpired attempt and leaves no row |
| LoginAttempts.AuthStateRepository.Read | mlflow_oidc_auth/repository/auth_state.py:110-121 | the first half of a consumption holds exactly what the machine's callback holds |
| LoginAttempts.AuthStateRepository.Claim | mlflow_oidc_auth/repository/auth_state.py:122-133 | the counted delete, against whatever other callbacks left, removes the row and hands out as the machine's step does |
| LoginAttempts.AuthStateRepository.Consume | mlflow_oidc_auth/repository/auth_state.py:100-133 | returns the stored attempt exactly when it exists and has not expired, removes its row either way, and is the machine's whole callback |
| LoginAttempts.AuthStateRepository.DeleteExpired | mlflow_oidc_auth/repository/auth_state.py:135-145 | removes and counts exactly the rows expired at the cutoff |
| IdentityPolicy.ExistingAccountsAreReachedInThreeWays | mlflow_oidc_auth/identity_resolution.py:119-222 | a login proceeds as an existing account if and only if its identity was bound to it, or an authorised verified address or default-provider adoption reached an account no other provider owns |
| IdentityPolicy.DomainFollowsTheAtSign | mlflow_oidc_auth/identity_resolution.py:100-116 | an address has a domain exactly when it is one local part and one domain, neither blank, around a single at-sign, and it is what follows the at-sign |
| IdentityPolicy.CreationNeedsAFreeName | mlflow_oidc_auth/provisioning_policy.py:81-124 | a login creates an account if and only if the derived name is non-empty and unused, the provider creates users, the identity is bound to nobody and, under email binding, the name is a verified address in an allowed domain |
| IdentityPolicy.ForeignAccountsAreOutOfReach | mlflow_oidc_auth/identity_resolution.py:146-222 | no login through a provider proceeds as an account another provider owns unless already bound to it |
| IdentityPolicy.EmailBoundProvidersNeverAdopt | mlflow_oidc_auth/provisioning_policy.py:81-124 | when a provider binding by email decides to create, the derived name is free, so it never takes over an account |
| AccountRuns.AccountsAreKeptOrMade | mlflow_oidc_auth/repository/user.py:144-168 | the account a name belongs to at the end of a run was made by the run if and only if the name was free at its start or its deletion committed along it; otherwise it is the account of the start, in its row |
| IdentityPolicy.ALateCommitBindsTheDecidedAccount | mlflow_oidc_auth/repository/user_identity.py:58-113 | a link committed any number of calls after its decision binds the account of the decided name; it is one made in between if and only if the decision was to create or a deletion of the name committed, and otherwise the one the decision reached in one of the three ways; a binding it writes is the account's only provider |
| IdentityPolicy.TheBindingKeepsTheDecidedName | mlflow_oidc_auth/repository/user_identity.py:25-46 | through any further run in which the pair stays bound it keeps the row bound at the commit, which keeps the decided name and is not deleted |
| IdentityPolicy.ARecreatedAccountCanBeBound | mlflow_oidc_auth/repository/user_identity.py:88-113 | the exception for a deletion is real: a late link can bind an account made anew under the decided name, in a new row or the old one |
| GroupSync.GroupSyncIsExact | mlflow_oidc_auth/provisioning_policy.py:127-173 | groups are left alone exactly when the provider never syncs, the first login is past, or an additive sync cannot read the current groups; otherwise authoritative sync yields exactly the claims, raw or prefixed, additive sync adds them to all current groups, neither repeats a group |
| GroupSync.RawNamesAreOutOfReach | mlflow_oidc_auth/provisioning_policy.py:127-141 | no provider but the default one can name a local group without a colon in its name |
| GroupSync.ProviderGroupsMeetIff | mlflow_oidc_auth/provisioning_policy.py:127-141 | two providers can name a common local group if and only if one is the default provider or one's prefix extends the other's |
| GroupSync.ClusterGroupsAreReachedIff | mlflow_oidc_auth/kubernetes.py:87-90 | a provider's claim can name a Kubernetes namespace's group if and only if it is the default provider or its id is `k8s` |
| GroupSync.MembershipIsExactlyTheClaim | mlflow_oidc_auth/repository/group.py:31-42 | populate then set leaves the user in exactly the named groups and everybody else as they were |
| GroupSync.SyncingTwiceIsANoOp | mlflow_oidc_auth/repository/group.py:140-160 | the same sync again changes nothing |
| GroupSync.GroupTables.CreateGroups | mlflow_oidc_auth/repository/group.py:31-42 | adds the missing groups once each and keeps the present ones in place |
| GroupSync.GroupTables.SetGroupsForUser | mlflow_oidc_auth/repository/group.py:140-160 | replaces one user's rows by the named groups with no duplicate row, leaves other users alone, and refuses a missing group with nothing changed |
| GroupPermissions.BestOfCandidates | mlflow_oidc_auth/repository/_base.py:358-367 | the fold that starts with nothing held computes the specified maximum or error |
| GroupPermissions.HighestForUser | mlflow_oidc_auth/repository/workspace_group_permission.py:212-225 | the fold that starts with the first row computes the same |
| GroupPermissions.FailsExactlyWhen | mlflow_oidc_auth/permissions.py:81-102 | no rows is not found; two or more rows with an unknown name is an error; nothing else fails |
| GroupPermissions.FoldFindsTheGreatest | mlflow_oidc_auth/permissions.py:89-102 | no row outranks the one found |
| GroupPermissions.OrderOfRowsIsImmaterial | mlflow_oidc_auth/repository/registered_model_permission_group.py:77-97 | any reordering of the rows finds the same permission or the same error |
| GroupPermissions.NoPermissionsWins | mlflow_oidc_auth/permissions.py:58-66 | one group with NO_PERMISSIONS decides, whatever the others grant |
| GroupPermissions.CapabilitiesAreTheUnion | mlflow_oidc_auth/repository/scorer_permission_group.py:75-105 | otherwise each capability is granted exactly when some group grants it |
| GroupPermissions.TheTable | mlflow_oidc_auth/permissions.py:18-74 | the five permissions, what each allows and which goes before which |
| ProviderEntries.ValidateAlgorithms | mlflow_oidc_auth/provider_registry.py:427-487 | the loop over the configured names yields a pinned set, non-empty and asymmetric, whenever it reports no error |
| ProviderEntries.AcceptedProvidersAreSound | mlflow_oidc_auth/provider_registry.py:226-380 | an accepted entry carries its own id, a pinned algorithm set, an audience and, if it validates tokens, an issuer |
| EntryRules.AcceptedIffItFollowsTheRules | mlflow_oidc_auth/provider_registry.py:226-540 | an entry with a new id is accepted if and only if it meets every rule: types, vocabularies, combinations, asymmetric algorithms, audience, issuer and key source |
| EntryRules.AcceptedProvidersCarryTheEntry | mlflow_oidc_auth/provider_registry.py:342-382 | the accepted provider carries the entry's texts stripped, its lists, its words and the documented defaults |
| EntryRules.AlgorithmsAreCarried | mlflow_oidc_auth/provider_registry.py:427-487 | its algorithms are the configured names in canonical spelling, and RS256 when none are configured |
| ProviderEntries.AdmittedNamespacesAreReal | mlflow_oidc_auth/provider_registry.py:490-540 | a Kubernetes entry is accepted only with an allowlist; what it admits lives in a namespace Kubernetes could have, and is an account Kubernetes could have if and only if the subject has no line feed |
| ProviderEntries.FreshIdsValidateAlike | mlflow_oidc_auth/provider_registry.py:236-247 | an entry whose id is new is judged as if nothing had been seen, never as a duplicate and never without a reason |
| ProviderRegistry.RejectDuplicateIssuers | mlflow_oidc_auth/provider_registry.py:660-681 | the loop keeps the first claimant of every issuer; every other provider loses to a kept one by an error, and every error blames such a provider |
| ProviderRegistry.KeptAreFirstClaimants | mlflow_oidc_auth/provider_registry.py:660-681 | what is kept is an order-preserving subsequence of first claimants |
| ProviderRegistry.EliminationLeavesDistinctIssuers | mlflow_oidc_auth/provider_registry.py:660-681 | no two kept providers claim one issuer |
| ProviderRegistry.EliminationIsIdempotent | mlflow_oidc_auth/provider_registry.py:660-681 | eliminating again eliminates nothing |
| ProviderRegistry.CountIds | mlflow_oidc_auth/provider_registry.py:745-752 | the first pass counts an id above one exactly when another entry has it |
| ProviderRegistry.ValidateEntries | mlflow_oidc_auth/provider_registry.py:754-767 | an entry survives the second pass exactly when no error accounts for it, and the validator's own duplicate branch is never taken |
| ProviderRegistry.LoadEntries | mlflow_oidc_auth/provider_registry.py:741-774 | every entry is either kept or accounted for by an error, and never both |
| ProviderRegistry.LoadedIsRegistered | mlflow_oidc_auth/provider_registry.py:741-774 | the kept providers are the verdicts on an increasing selection of the entries, sound, with distinct ids and distinct issuers |
| ProviderRegistry.RepeatedIdsKeepNothing | mlflow_oidc_auth/provider_registry.py:745-760 | an id written twice keeps no copy |
| ProviderRegistry.ParseEntries | mlflow_oidc_auth/provider_registry.py:600-631 | every listed item becomes an entry or an error, in order |
| ProviderRegistry.SettingsAreReadInOrder | mlflow_oidc_auth/provider_registry.py:700-733 | the variable, then the file, then nothing: which one is read and which failure is reported |
| ProviderRegistry.ItemsAreListed | mlflow_oidc_auth/provider_registry.py:600-622 | a payload's list is what it parses to, or what that object lists as its providers |
| ProviderRegistry.TheLegacyProviderIs | mlflow_oidc_auth/provider_registry.py:777-823 | the legacy provider carries the flat settings, every asymmetric algorithm and no blank audience |
| ProviderRegistry.BuildProviderRegistry | mlflow_oidc_auth/provider_registry.py:684-774 | falls back to the single legacy provider in exactly the stated cases, silently only when nothing was configured, and otherwise returns a registered list accounting for every item |
| TokenRouting.ResolveProvider | mlflow_oidc_auth/auth.py:285-318 | picks a token provider of the registry, and fails for want of one only if there is none |
| TokenRouting.RoutedExactlyTo | mlflow_oidc_auth/auth.py:285-318 | a token is routed to the one token provider there is or to the one whose issuer it claims; no issuer and an unknown issuer are told apart |
| TokenRouting.RoutingRefinesTryingEveryProvider | mlflow_oidc_auth/auth.py:350-384 | for any loaded registry a token is accepted if and only if some provider's full check accepts it, and the no-usable-algorithm error cannot happen |
| TokenRouting.AcceptedIffSomeProviderVouches | mlflow_oidc_auth/auth.py:321-384 | a token is accepted if and only if some token provider lists its algorithm within the ceiling, verifies its signature, matches audience and issuer where it has them, and the time window holds |
| TokenRouting.TheAccepterIsUnique | mlflow_oidc_auth/auth.py:310-313 | at most one provider accepts a token |
| TokenRouting.AcceptedTokensArePinned | mlflow_oidc_auth/auth.py:321-347 | an accepted token has an asymmetric algorithm its provider lists, never an unsigned or symmetric one, that provider's issuer, its audience, a signature under its keys and a time window that holds |
| TokenRouting.RotatedKeysArePickedUpIffRefuted | mlflow_oidc_auth/auth.py:365-384 | a token signed with a key only a fresh fetch knows is accepted if and only if the keys held refute its signature; one that names a key they lack is refused without a fetch |
| TokenRouting.OrderDoesNotMatter | mlflow_oidc_auth/auth.py:300-318 | reordering the registry changes neither the chosen provider nor the outcome |
| TokenRouting.TheShortcutAgreesWhenAnIssuerIsSet | mlflow_oidc_auth/auth.py:304-308 | with one provider, routing by issuer would accept the same tokens if and only if the provider has an issuer |
| ClientSecrets.CollidingSecretKeys | mlflow_oidc_auth/oauth.py:142-156 | the loop reports exactly the keys more than one id leads to, with those ids in order |
| ClientSecrets.ClientSettings | mlflow_oidc_auth/oauth.py:187-235 | computes the settings the lemmas are about, after consulting the collisions |
| ClientSecrets.CollidesIffShared | mlflow_oidc_auth/oauth.py:142-156 | a provider is refused for its key if and only if another provider, of whatever type, has the same key |
| ClientSecrets.ClientsNeverShareASecretKey | mlflow_oidc_auth/oauth.py:131-206 | two providers that both obtain settings never read the same client-secret key |
| ClientSecrets.SettingsComeFromTheRegistry | mlflow_oidc_auth/oauth.py:208-222 | with a loaded registry settings only come from one of its OIDC providers |
| ClientSecrets.CollapsedNamesAreLegal | mlflow_oidc_auth/oauth.py:131-139 | a derived key uses only capitals, digits and single underscores |
| ClientSecrets.KeysAreEqualIffWordsAre | mlflow_oidc_auth/oauth.py:131-139 | two ids share a key if and only if they consist of the same alphanumeric words, case and the punctuation between them aside |
| ClientSecrets.RefusedIffAnotherHasTheSameWords | mlflow_oidc_auth/oauth.py:142-206 | a provider is refused if and only if another one's id has the same words, and neither of them obtains settings |
| ClientSecrets.KeysAreTheWordsJoined | mlflow_oidc_auth/oauth.py:131-139 | a key is the prefix and the id's alphanumeric words, folded and joined by single underscores |
| ClientSecrets.SettingsAreItsOwn | mlflow_oidc_auth/oauth.py:187-235 | the settings are the provider's own client id and address, or for the default provider the flat ones, and the secret at its own key; nothing for a provider that is not OIDC, shares its words or lacks a value |
| OwnershipJournal.UserTable.Reconcile | mlflow_oidc_auth/db/cli.py:120-200 | refuses, shows or applies the one diff, changes owners only when it applies, and journals exactly what it changed |
| OwnershipJournal.DiffRecords | mlflow_oidc_auth/db/cli.py:154-176 | the diff lists every selected row once with the owner it had |
| OwnershipJournal.ReconcilingReownsExactly | mlflow_oidc_auth/db/cli.py:154-162 | which rows a reconciliation re-owns and lists: those matching the two filters that are not owned so already |
| OwnershipJournal.OwnersThatMayBeWritten | mlflow_oidc_auth/db/cli.py:120-150 | the owners the command accepts |
| OwnershipJournal.UserTable.Restore | mlflow_oidc_auth/db/cli.py:208-258 | undoes the journal entry by entry and reports the skipped users |
| OwnershipJournal.RestoreTouchesOnlyHeldRows | mlflow_oidc_auth/db/cli.py:236-251 | only journalled rows still holding the written owner change, and go back to their journalled owner |
| OwnershipJournal.SkippedAreTheReowned | mlflow_oidc_auth/db/cli.py:236-251 | the users reported as skipped are exactly the journalled ones that are gone or re-owned |
| OwnershipJournal.RestoreUndoesReconcile | mlflow_oidc_auth/db/cli.py:208-258 | restoring right after a reconciliation puts every owner back, nulls included |
| OwnershipJournal.StacksUnwind | mlflow_oidc_auth/db/cli.py:208-258 | any stack of reconciliations restored in reverse returns the table exactly to its start |
| OwnershipJournal.NewerDecisionsSurvive | mlflow_oidc_auth/db/cli.py:236-251 | whatever happened in between, a restoration gives back the journalled owner exactly on rows the reconciliation changed that now hold the owner it wrote; every other row keeps what it has |
| PrefixInvalidation.EscapeGlob | mlflow_oidc_auth/cache/redis_backend.py:23-29 | the five replacements in turn escape every metacharacter once, as one pass would |
| PrefixInvalidation.CleanNamespaceMatchesExactly | mlflow_oidc_auth/cache/redis_backend.py:74-81 | under a metacharacter-free namespace the pattern matches exactly the keys that start with the literal text |
| PrefixInvalidation.PatternIsLiteralIffNamespaceClean | mlflow_oidc_auth/cache/redis_backend.py:58-59 | the pattern is literal for every prefix and key if and only if the namespace is free of metacharacters |
| PrefixInvalidation.UncleanNamespaceIsWrong | mlflow_oidc_auth/cache/redis_backend.py:58-59 | for every other namespace a key that is wrongly deleted or wrongly kept |
| PrefixInvalidation.RedisServer.ScanDelete | mlflow_oidc_auth/cache/redis_backend.py:90-97 | the cursor loop removes exactly the matching keys |
| PrefixInvalidation.RedisServer.DeletePrefix | mlflow_oidc_auth/cache/redis_backend.py:74-81 | deletes by the namespace plus the escaped prefix plus a star |
| PrefixInvalidation.LocalCache.DeletePrefix | mlflow_oidc_auth/cache/local_backend.py:39-43 | drops exactly the keys that start with the prefix |
| PrefixInvalidation.BackendsAgree | mlflow_oidc_auth/cache/redis_backend.py:74-97 | after a prefix deletion the namespace holds on the server what the local cache holds |
| PrefixInvalidation.OtherDomainsUntouched | mlflow_oidc_auth/cache/factory.py:56-57 | other colon-free cache domains of the deployment keep every entry |
| ServiceAccounts.ParsingInvertsPrinting | mlflow_oidc_auth/kubernetes.py:103-132 | parsing yields an account if and only if the account is valid and prints to that subject |
| ServiceAccounts.UsernamesAreInjective | mlflow_oidc_auth/kubernetes.py:71-85 | no two valid accounts share a username |
| ServiceAccounts.DnsLabelsAre | mlflow_oidc_auth/kubernetes.py:41-55 | the rule the label check is compared with: 1 to 63 lower-case letters, digits and inner dashes |
| ServiceAccounts.TheCheckAdmitsATrailingLineFeed | mlflow_oidc_auth/kubernetes.py:93-100 | the label check differs from the Kubernetes rule exactly on a label followed by one line feed |
| ServiceAccounts.AllowedNamespacesAreReal | mlflow_oidc_auth/kubernetes.py:135-143 | behind an allowlist of stripped names the difference cannot show in the namespace |
| ServiceAccounts.ALineFeedInTheNameIsAdmitted | mlflow_oidc_auth/middleware/auth_middleware.py:295-333 | it can show in the name: an account no cluster could have is admitted under a username of its own |
| ServiceAccounts.AdmittedAccountsAreRealIffNoLineFeed | mlflow_oidc_auth/kubernetes.py:103-143 | an admitted account is one Kubernetes could have if and only if its subject has no line feed |

## Left out

- Unicode case folding: lower-casing and upper-casing act on ASCII letters only; stripping covers the Unicode space characters.
- HTTP, session cookies, JWKS fetching and its caches, file reads, command output, logging and audit records. A token's signature, a password hash and a random id are an ideal predicate or a fresh value.
- What the token library reports for a key set that lacks the token's key is taken to be an error of its own, not a bad signature.
- The claim checks of the token library beyond audience and issuer, which appear as one `timely` flag of a token.
- SQL: tables are maps, sets and lists, and a refused call is a rolled-back transaction. SQL uniqueness constraints that only repeat a check in the code are not modelled separately.
- The model-versions search shares the offset refill; it differs only in when it looks a workspace up.
- MLflow's own page store: the raw result of a search is one fixed list for the whole chain, and readability does not change while it runs.
- Overlapping routes and the regular expressions of route patterns: a pattern is an abstract match relation, and one route serves a request.
- Repeated, message and map fields of a request message: only singular fields have a value to compare, and a null stands for absence.
- The other permission tables' own grant, update and rename operations, the permission resolver and its cache, and the gateway cascade handlers: one-row operations with no rule across them.
- Deleting a group and listing calls of the repositories.
- Time-to-live and size eviction of the cache backends, which drop entries neither backend promises to keep.
- How a Redis SCAN iterates: a full iteration is taken to return every matching key present throughout, possibly more than once.
- LoginAttempts.AuthStateRepository.Create: its random state is a parameter required to be new.
- AccountRepository.AccountTables.OpenSession: its random session id is a parameter required to be new.
- TokenRouting.OrderDoesNotMatter: is about configured registries; the legacy registry has one provider and no order.
- The service-account token exchange, provisioning and the pod's own credentials in `kubernetes.py` and `auth_middleware.py`, beyond the names and the allowlist.
