/**
 Bulk ownership changes and their undo (the `reconcile-ownership` and `restore-ownership` commands
 of mlflow_oidc_auth/db/cli.py).
 */
module OwnershipJournal {
  import opened Wrappers
  import opened Text
  import opened Ownership

  /** The `managed_by` column by username; a null is None. */
  type Owners = map<string, Option<string>>

  datatype Entry = Entry(username: string, managedBy: Option<string>)

  datatype Journal = Journal(setOwner: string, previous: seq<Entry>)

  /** A command line; an omitted or empty option selects nothing. */
  datatype Selection = Selection(setOwner: string, fromOwner: string, username: string, allRows: bool)

  predicate ProviderIdChar(c: char) {
    'A' <= c <= 'Z' || 'a' <= c <= 'z' || '0' <= c <= '9' || c == '.' || c == '_' || c == '-'
  }

  /** manual|scim|oidc:[A-Za-z0-9._-]+ */
  predicate PresentableOwner(owner: string) {
    || owner == "manual" || owner == "scim"
    || (&& |owner| > 5 && owner[..5] == "oidc:" && forall i :: 5 <= i < |owner| ==> ProviderIdChar(owner[i]))
  }

  datatype Outcome = BadOwner | NeedsAll | NothingToChange | DryRun(diff: seq<Entry>) | JournalExists | Applied(diff: seq<Entry>)

  /** The rows a selection changes: the filters, and not already owned as asked. */
  predicate Selected(s: Selection, name: string, owner: Option<string>) {
    && (s.fromOwner != "" ==> owner == Some(s.fromOwner))
    && (s.username != "" ==> name == Lower(Strip(s.username)))
    && OrManual(owner) != s.setOwner
  }

  function SetOwnerOf(owners: Owners, s: Selection): (r: Owners) {
    map name | name in owners :: if Selected(s, name, owners[name]) then Some(s.setOwner) else owners[name]
  }

  /** A journal lists every selected row once, with the owner the row had. */
  ghost predicate Records(owners: Owners, s: Selection, diff: seq<Entry>) {
    && (forall i, j :: 0 <= i < j < |diff| ==> diff[i].username != diff[j].username)
    && (forall e :: e in diff <==> e.username in owners && Selected(s, e.username, owners[e.username]) && e.managedBy == owners[e.username])
  }

  ghost predicate Lists(order: seq<string>, owners: Owners) {
    && (forall n :: n in order <==> n in owners)
    && (forall i, j :: 0 <= i < j < |order| ==> order[i] != order[j])
  }

  /** The diff shown to the operator: the selected rows, in the database's order. */
  function Diff(owners: Owners, s: Selection, order: seq<string>): (r: seq<Entry>)
    requires forall n :: n in order ==> n in owners
  {
    if order == [] then []
    else
      var name := order[|order| - 1];
      Diff(owners, s, order[..|order| - 1]) + if Selected(s, name, owners[name]) then [Entry(name, owners[name])] else []
  }

  lemma {:induction false} DiffLists(owners: Owners, s: Selection, order: seq<string>)
    requires forall n :: n in order ==> n in owners
    requires forall i, j :: 0 <= i < j < |order| ==> order[i] != order[j]
    ensures forall i, j :: 0 <= i < j < |Diff(owners, s, order)| ==> Diff(owners, s, order)[i].username != Diff(owners, s, order)[j].username
    ensures forall e :: e in Diff(owners, s, order) <==>
              e.username in order && Selected(s, e.username, owners[e.username]) && e.managedBy == owners[e.username]
  {
    if order != [] {
      var init := order[..|order| - 1];
      DiffLists(owners, s, init);
      assert order == init + [order[|order| - 1]];
      assert forall e :: e in Diff(owners, s, init) ==> e.username in init;
    }
  }

  lemma DiffRecords(owners: Owners, s: Selection, order: seq<string>)
    requires Lists(order, owners)
    ensures Records(owners, s, Diff(owners, s, order))
  {
    DiffLists(owners, s, order);
  }

  /** Undoing one entry: only a row that still holds what the reconciliation wrote goes back. */
  function RestoreEntry(owners: Owners, setOwner: string, e: Entry): (r: Owners) {
    if e.username in owners && owners[e.username] == Some(setOwner) then owners[e.username := e.managedBy] else owners
  }

  function RestoreEntries(owners: Owners, setOwner: string, entries: seq<Entry>): (r: Owners) {
    if entries == [] then owners
    else RestoreEntry(RestoreEntries(owners, setOwner, entries[..|entries| - 1]), setOwner, entries[|entries| - 1])
  }

  /** The journalled users a restoration leaves alone, as it reports them. */
  function SkippedOf(owners: Owners, setOwner: string, entries: seq<Entry>): (r: seq<string>) {
    if entries == [] then []
    else
      var init, last := entries[..|entries| - 1], entries[|entries| - 1];
      var before := RestoreEntries(owners, setOwner, init);
      SkippedOf(owners, setOwner, init)
      + if last.username in before && before[last.username] == Some(setOwner) then [] else [last.username]
  }

  // ---------------------------------------------------------------------------------------------
  // The commands
  // ---------------------------------------------------------------------------------------------

  class UserTable {
    var owners: Owners

    constructor (owners: Owners)
      ensures this.owners == owners
    {
      this.owners := owners;
    }

    /** `order` is the order in which the database returns the rows; `journalFree` says that the
        journal file does not exist yet. */
    method Reconcile(s: Selection, apply: bool, keepJournal: bool, journalFree: bool, order: seq<string>)
      returns (out: Outcome, journal: Option<Journal>)
      requires Lists(order, owners)
      modifies this
      ensures var diff := Diff(old(owners), s, order);
              out == if !PresentableOwner(s.setOwner) then BadOwner
                     else if s.fromOwner == "" && s.username == "" && !s.allRows then NeedsAll
                     else if diff == [] then NothingToChange
                     else if !apply then DryRun(diff)
                     else if keepJournal && !journalFree then JournalExists
                     else Applied(diff)
      ensures out.DryRun? || out.Applied? ==> Records(old(owners), s, out.diff)
      ensures out.Applied? ==> owners == SetOwnerOf(old(owners), s)
      ensures !out.Applied? ==> owners == old(owners)
      ensures journal == if out.Applied? && keepJournal then Some(Journal(s.setOwner, out.diff)) else None
    {
      journal := None;
      if !PresentableOwner(s.setOwner) {
        return BadOwner, None;
      }
      if s.fromOwner == "" && s.username == "" && !s.allRows {
        return NeedsAll, None;
      }
      var rows := SelectRows(s, order);
      DiffRecords(owners, s, order);
      if rows == [] {
        return NothingToChange, None;
      }
      if !apply {
        return DryRun(rows), None;
      }
      if keepJournal {
        if !journalFree {
          return JournalExists, None;
        }
        journal := Some(Journal(s.setOwner, rows));
      }
      WriteOwner(s, rows);
      out := Applied(rows);
    }

    /** The query both a dry run and an application read their diff from. */
    method SelectRows(s: Selection, order: seq<string>) returns (rows: seq<Entry>)
      requires Lists(order, owners)
      ensures rows == Diff(owners, s, order)
    {
      rows := [];
      for i := 0 to |order|
        invariant rows == Diff(owners, s, order[..i])
      {
        assert order[..i + 1][..i] == order[..i];
        if Selected(s, order[i], owners[order[i]]) {
          rows := rows + [Entry(order[i], owners[order[i]])];
        }
      }
      assert order[..|order|] == order;
    }

    method WriteOwner(s: Selection, rows: seq<Entry>)
      requires Records(owners, s, rows)
      modifies this
      ensures owners == SetOwnerOf(old(owners), s)
    {
      ghost var before := owners;
      for i := 0 to |rows|
        invariant owners.Keys == before.Keys
        invariant forall n :: n in owners ==>
                    owners[n] == if exists k :: 0 <= k < i && rows[k].username == n then Some(s.setOwner) else before[n]
      {
        assert rows[i] in rows;
        owners := owners[rows[i].username := Some(s.setOwner)];
      }
      forall n | n in owners ensures owners[n] == SetOwnerOf(before, s)[n] {
        if Selected(s, n, before[n]) {
          assert Entry(n, before[n]) in rows;
        } else if k :| 0 <= k < |rows| && rows[k].username == n {
          assert rows[k] in rows;
        }
      }
    }

    method Restore(journal: Journal, apply: bool) returns (restored: nat, skipped: seq<string>)
      modifies this
      ensures owners == if apply then RestoreEntries(old(owners), journal.setOwner, journal.previous) else old(owners)
      ensures skipped == if apply then SkippedOf(old(owners), journal.setOwner, journal.previous) else []
      ensures restored + |skipped| == if apply then |journal.previous| else 0
    {
      restored, skipped := 0, [];
      if journal.previous == [] || !apply {
        return;
      }
      assert journal.previous[..0] == [];
      for i := 0 to |journal.previous|
        invariant owners == RestoreEntries(old(owners), journal.setOwner, journal.previous[..i])
        invariant skipped == SkippedOf(old(owners), journal.setOwner, journal.previous[..i])
        invariant restored + |skipped| == i
      {
        var entry := journal.previous[i];
        assert journal.previous[..i + 1][..i] == journal.previous[..i];
        if entry.username in owners && owners[entry.username] == Some(journal.setOwner) {
          owners := owners[entry.username := entry.managedBy];
          restored := restored + 1;
        } else {
          skipped := skipped + [entry.username];
        }
      }
      assert journal.previous[..|journal.previous|] == journal.previous;
    }
  }

  // ---------------------------------------------------------------------------------------------
  // Reconcile and restore are inverse
  // ---------------------------------------------------------------------------------------------

  /** Which rows a reconciliation re-owns, and to whom: those owned as `--from-owner` asks, if it asks,
      and named as `--username` asks, blanks and case aside, if it asks, and not owned so already; no
      recorded owner counts as `manual`. A diff lists these rows with the owner each had. */
  lemma ReconcilingReownsExactly(owners: Owners, s: Selection, order: seq<string>, name: string)
    requires Lists(order, owners) && name in owners
    ensures var owner := owners[name];
            var changes := && (s.fromOwner == "" || owner == Some(s.fromOwner))
                           && (s.username == "" || name == Lower(Strip(s.username)))
                           && s.setOwner != (if owner == None || owner == Some("") then "manual" else owner.value);
            && SetOwnerOf(owners, s).Keys == owners.Keys
            && SetOwnerOf(owners, s)[name] == (if changes then Some(s.setOwner) else owner)
            && forall was :: Entry(name, was) in Diff(owners, s, order) <==> changes && was == owner
  {
    DiffLists(owners, s, order);
    forall was ensures Entry(name, was) in Diff(owners, s, order) <==> Selected(s, name, owners[name]) && was == owners[name] {
      assert Entry(name, was).username == name;
    }
  }

  /** The owners the command may write: the two fixed ones, and a provider by an id of letters, digits,
      dots, underscores and dashes. */
  lemma OwnersThatMayBeWritten(owner: string)
    ensures PresentableOwner(owner) <==>
              || owner in ["manual", "scim"]
              || exists id :: && owner == "oidc:" + id && id != ""
                              && forall c :: c in id ==> 'A' <= c <= 'Z' || 'a' <= c <= 'z' || '0' <= c <= '9' || c in "._-"
  {
    if |owner| > 5 && owner[..5] == "oidc:" {
      var id := owner[5..];
      assert owner == "oidc:" + id;
      assert forall i :: 5 <= i < |owner| ==> owner[i] == id[i - 5];
    }
    if id :| owner == "oidc:" + id && id != "" && forall c :: c in id ==> 'A' <= c <= 'Z' || 'a' <= c <= 'z' || '0' <= c <= '9' || c in "._-" {
      assert owner[..5] == "oidc:";
      forall i | 5 <= i < |owner| ensures ProviderIdChar(owner[i]) {
        assert owner[i] == id[i - 5] && id[i - 5] in id;
      }
    }
  }

  /** What a restoration does to one row: it goes back to its journalled owner if it is journalled and
      still holds what was written; every other row is left alone. */
  lemma {:induction false} RestoreTouchesOnlyHeldRows(owners: Owners, setOwner: string, entries: seq<Entry>, name: string)
    requires forall i, j :: 0 <= i < j < |entries| ==> entries[i].username != entries[j].username
    requires name in owners
    ensures var restored := RestoreEntries(owners, setOwner, entries);
            && name in restored
            && (owners[name] != Some(setOwner) ==> restored[name] == owners[name])
            && ((forall e :: e in entries ==> e.username != name) ==> restored[name] == owners[name])
            && (forall e :: e in entries && e.username == name && owners[name] == Some(setOwner) ==> restored[name] == e.managedBy)
  {
    if entries != [] {
      var init := entries[..|entries| - 1];
      RestoreTouchesOnlyHeldRows(owners, setOwner, init, name);
      assert entries == init + [entries[|entries| - 1]];
    }
  }

  /** A restoration reports exactly the journalled users who are gone or have been re-owned since. */
  lemma {:induction false} SkippedAreTheReowned(owners: Owners, setOwner: string, entries: seq<Entry>, name: string)
    requires forall i, j :: 0 <= i < j < |entries| ==> entries[i].username != entries[j].username
    ensures name in SkippedOf(owners, setOwner, entries)
            <==> (exists e :: e in entries && e.username == name) && !(name in owners && owners[name] == Some(setOwner))
  {
    if entries != [] {
      var init, last := entries[..|entries| - 1], entries[|entries| - 1];
      assert entries == init + [last];
      SkippedAreTheReowned(owners, setOwner, init, name);
      RestoreKeepsRows(owners, setOwner, init);
      if last.username in owners {
        RestoreTouchesOnlyHeldRows(owners, setOwner, init, last.username);
      }
    }
  }

  /** Restoring right after a reconciliation puts every owner back, nulls included. */
  lemma RestoreUndoesReconcile(owners: Owners, s: Selection, diff: seq<Entry>)
    requires Records(owners, s, diff)
    ensures RestoreEntries(SetOwnerOf(owners, s), s.setOwner, diff) == owners
  {
    var written := SetOwnerOf(owners, s);
    forall n | n in owners
      ensures n in RestoreEntries(written, s.setOwner, diff) && RestoreEntries(written, s.setOwner, diff)[n] == owners[n]
    {
      RestoreTouchesOnlyHeldRows(written, s.setOwner, diff, n);
      if Selected(s, n, owners[n]) {
        assert Entry(n, owners[n]) in diff;
      }
    }
    RestoreKeepsRows(written, s.setOwner, diff);
  }

  lemma {:induction false} RestoreKeepsRows(owners: Owners, setOwner: string, entries: seq<Entry>)
    ensures RestoreEntries(owners, setOwner, entries).Keys == owners.Keys
  {
    if entries != [] {
      RestoreKeepsRows(owners, setOwner, entries[..|entries| - 1]);
    }
  }

  /** A reconciliation that ran, with the journal it left. */
  datatype Done = Done(selection: Selection, diff: seq<Entry>)

  function ApplyAll(owners: Owners, steps: seq<Done>): (r: Owners)
    decreases steps
  {
    if steps == [] then owners else ApplyAll(SetOwnerOf(owners, steps[0].selection), steps[1..])
  }

  ghost predicate AllRecorded(owners: Owners, steps: seq<Done>)
    decreases steps
  {
    steps == [] || (Records(owners, steps[0].selection, steps[0].diff) && AllRecorded(SetOwnerOf(owners, steps[0].selection), steps[1..]))
  }

  /** Restores the journals, last one first. */
  function RestoreAll(owners: Owners, steps: seq<Done>): (r: Owners)
    decreases steps
  {
    if steps == [] then owners
    else RestoreEntries(RestoreAll(owners, steps[1..]), steps[0].selection.setOwner, steps[0].diff)
  }

  /** Any stack of journalled reconciliations, restored in reverse, returns the table exactly to its start. */
  lemma {:induction false} StacksUnwind(owners: Owners, steps: seq<Done>)
    requires AllRecorded(owners, steps)
    ensures RestoreAll(ApplyAll(owners, steps), steps) == owners
    decreases steps
  {
    if steps != [] {
      StacksUnwind(SetOwnerOf(owners, steps[0].selection), steps[1..]);
      RestoreUndoesReconcile(owners, steps[0].selection, steps[0].diff);
    }
  }

  /** Whatever happened to the table in between, a restoration gives a user back their journalled owner
      exactly when the reconciliation changed their row and it now holds the owner written then; every
      other row keeps what it has. */
  lemma NewerDecisionsSurvive(owners: Owners, s: Selection, diff: seq<Entry>, later: Owners, name: string)
    requires Records(owners, s, diff) && name in later
    ensures var restored := RestoreEntries(later, s.setOwner, diff);
            && restored.Keys == later.Keys
            && restored[name] == if name in owners && Selected(s, name, owners[name]) && later[name] == Some(s.setOwner)
                                 then owners[name] else later[name]
  {
    RestoreKeepsRows(later, s.setOwner, diff);
    RestoreTouchesOnlyHeldRows(later, s.setOwner, diff, name);
    if name in owners && Selected(s, name, owners[name]) {
      assert Entry(name, owners[name]) in diff;
    }
  }
}
