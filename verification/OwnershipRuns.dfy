/** What turning ownership enforcement on would change, read off a run in report mode. */
module OwnershipRuns {
  import opened Wrappers
  import opened Ownership
  import opened Accounts
  import opened Text
  import AccountRuns
  import opened AccountEffects
  import OwnershipJournal

  /** A committed update that crossed ownership, as report mode records it. */
  ghost predicate RecordsConflict(s: State, op: Op) {
    && op.Update?
    && Attempt(Report, s, op).Ok?
    && EvaluateWrite(s.db.users[Find(s.db.users, NormalizeUsername(op.name)).value].managedBy, op.writtenBy, Report, op.adminOverride).conflict
  }

  /** Nothing recorded along the report run but administrator overrides. */
  ghost predicate Quiet(s: State, ops: seq<Op>)
    decreases ops
  {
    ops == [] || (!(RecordsConflict(s, ops[0]) && !ops[0].adminOverride) && Quiet(Step(Report, s, ops[0]), ops[1..]))
  }

  /** Every call of the report run would have been accepted or refused alike under enforcement. */
  ghost predicate SameVerdicts(s: State, ops: seq<Op>)
    decreases ops
  {
    || ops == []
    || ((Attempt(Report, s, ops[0]).Ok? <==> Attempt(Enforce, s, ops[0]).Ok?) && SameVerdicts(Step(Report, s, ops[0]), ops[1..]))
  }

  /** Recording changes nothing: a report run ends in the same database as an unguarded one. */
  lemma {:induction false} OffAndReportAgree(s: State, ops: seq<Op>)
    ensures Run(Off, s, ops) == Run(Report, s, ops)
    decreases ops
  {
    if ops != [] {
      assert Step(Off, s, ops[0]) == Step(Report, s, ops[0]);
      OffAndReportAgree(Step(Off, s, ops[0]), ops[1..]);
    }
  }

  /** Enforcement changes one verdict only: it refuses what report mode would have recorded. */
  lemma EnforceRefusesWhatReportRecords(s: State, op: Op)
    ensures (Attempt(Report, s, op).Ok? <==> Attempt(Enforce, s, op).Ok?) <==> !(RecordsConflict(s, op) && !op.adminOverride)
    ensures Attempt(Report, s, op).Ok? && Attempt(Enforce, s, op).Ok? ==> Attempt(Report, s, op) == Attempt(Enforce, s, op)
  {
  }

  /** A report run predicts the enforced one: if all it recorded were overrides, enforcing the same
      calls ends in the same database. */
  lemma {:induction false} ReportPredictsEnforce(s: State, ops: seq<Op>)
    requires Quiet(s, ops)
    ensures Run(Enforce, s, ops) == Run(Report, s, ops)
    decreases ops
  {
    if ops != [] {
      EnforceRefusesWhatReportRecords(s, ops[0]);
      assert Step(Enforce, s, ops[0]) == Step(Report, s, ops[0]);
      ReportPredictsEnforce(Step(Report, s, ops[0]), ops[1..]);
    }
  }

  /** And it warns of nothing else: the recording is quiet exactly when enforcement would have
      refused no call the report run accepted. */
  lemma {:induction false} QuietIffSameVerdicts(s: State, ops: seq<Op>)
    ensures Quiet(s, ops) <==> SameVerdicts(s, ops)
    decreases ops
  {
    if ops != [] {
      EnforceRefusesWhatReportRecords(s, ops[0]);
      QuietIffSameVerdicts(Step(Report, s, ops[0]), ops[1..]);
    }
  }

  /** The operations that may change the row of `name` while `owner` holds it under enforcement. */
  ghost predicate MayWrite(op: Op, name: string, owner: string) {
    match op
    case Update(n, _, writtenBy, adminOverride) => NormalizeUsername(n) == name && (adminOverride || OrManual(writtenBy) == owner)
    case Delete(n) => NormalizeUsername(n) == name
    case BreakGlass(n) => n == name
    case SetOwners(owners) => name in owners && owners[name] != Some(owner)
    case _ => false
  }

  /** Under enforcement a row an external source owns is updated only by that source: without an
      override, a deletion, the break-glass command or an ownership command that re-owns it, it stays as
      it is through any run. */
  lemma {:induction false} OwnedRowsAreOnlyWrittenByTheirOwner(s: State, ops: seq<Op>, id: UserId)
    requires ValidState(s) && Legal(Enforce, s, ops) && id in s.db.users
    requires OrManual(s.db.users[id].managedBy) != MANUAL
    requires forall op :: op in ops ==> !MayWrite(op, s.db.users[id].username, OrManual(s.db.users[id].managedBy))
    ensures id in Run(Enforce, s, ops).db.users && Run(Enforce, s, ops).db.users[id] == s.db.users[id]
    decreases ops
  {
    if ops != [] {
      var t := Step(Enforce, s, ops[0]);
      AccountRuns.StepKeepsValid(Enforce, s, ops[0]);
      StepLeavesOwnedRow(s, ops[0], id);
      OwnedRowsAreOnlyWrittenByTheirOwner(t, ops[1..], id);
    }
  }

  lemma StepLeavesOwnedRow(s: State, op: Op, id: UserId)
    requires Enabled(s, op) && id in s.db.users
    requires OrManual(s.db.users[id].managedBy) != MANUAL
    requires !MayWrite(op, s.db.users[id].username, OrManual(s.db.users[id].managedBy))
    ensures id in Step(Enforce, s, op).db.users && Step(Enforce, s, op).db.users[id] == s.db.users[id]
  {
  }

  /** What a report run records: the committed updates, overrides included, of rows another external
      source owns. */
  lemma RecordedExactlyWhen(s: State, id: UserId, name: string, c: Change, writtenBy: Option<string>, adminOverride: bool)
    requires ValidState(s) && IsAccount(s.db, id, name)
    ensures RecordsConflict(s, Update(name, c, writtenBy, adminOverride)) <==>
              && OwnedByAnother(s.db.users[id].managedBy, writtenBy)
              && !((c.active == Some(false) || c.isAdmin == Some(false)) && IsLastAdmin(s.db, id))
  {
    UpdateIsRefusedExactlyWhen(Report, s, id, name, c, writtenBy, adminOverride);
    TheAccountIsFound(s.db, name);
  }

  /** A setting silences the recording if and only if it spells `off`, blanks and case aside. */
  lemma OnlyTheWordOffSilences(value: Option<string>, owner: Option<string>, writer: Option<string>)
    requires OwnedByAnother(owner, writer)
    ensures !EvaluateWrite(owner, writer, ParseEnforcement(value), false).conflict <==> value.Some? && Lower(Strip(value.value)) == "off"
    ensures EvaluateWrite(owner, writer, ParseEnforcement(value), false).owner
            == if value.Some? && Lower(Strip(value.value)) == "off" then None else owner
  {
  }

  // ---------------------------------------------------------------------------------------------
  // The ownership commands as steps of a run
  // ---------------------------------------------------------------------------------------------

  /** The ownership column by username, as the commands read and write it. */
  ghost predicate OwnersAre(db: Db, owners: OwnershipJournal.Owners) {
    && (forall id :: id in db.users ==> db.users[id].username in owners && owners[db.users[id].username] == db.users[id].managedBy)
    && (forall n :: n in owners ==> exists id :: id in db.users && db.users[id].username == n)
  }

  /** A reconciliation is a step of the account machine: what the command makes of the column is what
      the step leaves there. */
  lemma ReconcilingIsAStep(mode: Enforcement, s: State, owners: OwnershipJournal.Owners, sel: OwnershipJournal.Selection)
    requires OwnersAre(s.db, owners)
    ensures OwnersAre(Step(mode, s, SetOwners(OwnershipJournal.SetOwnerOf(owners, sel))).db, OwnershipJournal.SetOwnerOf(owners, sel))
  {
    WritingTheColumnIsAStep(mode, s, owners, OwnershipJournal.SetOwnerOf(owners, sel));
  }

  /** So is a restoration. */
  lemma RestoringIsAStep(mode: Enforcement, s: State, owners: OwnershipJournal.Owners, journal: OwnershipJournal.Journal)
    requires OwnersAre(s.db, owners)
    ensures var restored := OwnershipJournal.RestoreEntries(owners, journal.setOwner, journal.previous);
            OwnersAre(Step(mode, s, SetOwners(restored)).db, restored)
  {
    OwnershipJournal.RestoreKeepsRows(owners, journal.setOwner, journal.previous);
    WritingTheColumnIsAStep(mode, s, owners, OwnershipJournal.RestoreEntries(owners, journal.setOwner, journal.previous));
  }

  lemma WritingTheColumnIsAStep(mode: Enforcement, s: State, owners: OwnershipJournal.Owners, written: OwnershipJournal.Owners)
    requires OwnersAre(s.db, owners) && written.Keys == owners.Keys
    ensures OwnersAre(Step(mode, s, SetOwners(written)).db, written)
  {
    var after := Step(mode, s, SetOwners(written)).db;
    forall n | n in written ensures exists id :: id in after.users && after.users[id].username == n {
      var id :| id in s.db.users && s.db.users[id].username == n;
      assert id in after.users && after.users[id].username == n;
    }
  }

  // ---------------------------------------------------------------------------------------------
  // The setting
  // ---------------------------------------------------------------------------------------------

  /** A directory-owned user, and an update by hand. */
  function ForeignOwned(): (r: State) {
    State(Db(map[0 := User("ann", "", None, false, false, true, Some("scim"))], map[], map[], {}, {}, {}), 0, {})
  }

  const BY_HAND := Update("ann", Change(None, None, Some(true), None, None, None), None, false)

  /** Enforcing makes some run end elsewhere than an unguarded one. */
  ghost predicate ChangesSomeRun(mode: Enforcement) { exists s, ops :: Differs(mode, s, ops) }

  ghost predicate Differs(mode: Enforcement, s: State, ops: seq<Op>) { Run(mode, s, ops) != Run(Off, s, ops) }

  /** A setting decides the course of some run if and only if it spells `enforce`, blanks and case
      aside; any other setting, unreadable ones included, guards nothing. */
  lemma OnlyTheWordEnforceChangesARun(value: Option<string>)
    ensures ChangesSomeRun(ParseEnforcement(value)) <==> value.Some? && Lower(Strip(value.value)) == "enforce"
  {
    var mode := ParseEnforcement(value);
    if value.Some? && Lower(Strip(value.value)) == "enforce" {
      assert mode == Enforce;
      var s := ForeignOwned();
      assert s.db.users[0].username == "ann";
      AccountFound(s);
      assert !Step(Enforce, s, BY_HAND).db.users[0].isAdmin;
      assert Step(Off, s, BY_HAND).db.users[0].isAdmin;
      assert [BY_HAND][1..] == [];
      assert Run(Enforce, s, [BY_HAND]) == Step(Enforce, s, BY_HAND);
      assert Run(Off, s, [BY_HAND]) == Step(Off, s, BY_HAND);
      assert Differs(mode, s, [BY_HAND]);
    } else {
      forall s, ops ensures !Differs(mode, s, ops) {
        OffAndReportAgree(s, ops);
      }
    }
  }

  lemma AccountFound(s: State)
    requires s == ForeignOwned()
    ensures Find(s.db.users, NormalizeUsername("ann")) == Some(0)
  {
    LowerLeavesLetters("ann");
    assert s.db.users[0].username == "ann";
  }

  lemma {:induction false} LowerLeavesLetters(s: string)
    requires forall i :: 0 <= i < |s| ==> 'a' <= s[i] <= 'z'
    ensures Lower(s) == s
  {
    if s != "" {
      LowerLeavesLetters(s[1..]);
    }
  }
}
