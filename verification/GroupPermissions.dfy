/**
 The permission a user gets through groups (mlflow_oidc_auth/permissions.py and the folds in
 mlflow_oidc_auth/repository).
 */
module GroupPermissions {
  import opened Wrappers

  datatype Permission = Permission(
    name: string,
    priority: nat,
    canRead: bool,
    canUse: bool,
    canUpdate: bool,
    canDelete: bool,
    canManage: bool)

  const READ := Permission("READ", 1, true, false, false, false, false)
  const USE := Permission("USE", 2, true, true, false, false, false)
  const EDIT := Permission("EDIT", 3, true, true, true, false, false)
  const MANAGE := Permission("MANAGE", 4, true, true, true, true, true)
  const NO_PERMISSIONS := Permission("NO_PERMISSIONS", 100, false, false, false, false, false)

  const ALL_PERMISSIONS := [READ, USE, EDIT, MANAGE, NO_PERMISSIONS]

  /** A row granting a group a permission on the resource in question. */
  datatype Grant = Grant(groupId: nat, permission: string)

  datatype FoldError = InvalidPermission | NotFound

  predicate Known(name: string) {
    name == READ.name || name == USE.name || name == EDIT.name || name == MANAGE.name || name == NO_PERMISSIONS.name
  }

  function PermissionNamed(name: string): (p: Permission)
    requires Known(name)
    ensures p in ALL_PERMISSIONS && p.name == name
  {
    if name == READ.name then ALL_PERMISSIONS[0]
    else if name == USE.name then ALL_PERMISSIONS[1]
    else if name == EDIT.name then ALL_PERMISSIONS[2]
    else if name == MANAGE.name then ALL_PERMISSIONS[3]
    else ALL_PERMISSIONS[4]
  }

  function ComparePermissions(p: string, q: string): (r: Result<bool, FoldError>) {
    if !Known(p) || !Known(q) then Err(InvalidPermission)
    else Ok(PermissionNamed(p).priority <= PermissionNamed(q).priority)
  }

  // ---------------------------------------------------------------------------------------------
  // The fold
  // ---------------------------------------------------------------------------------------------

  /** The last of the rows with the greatest priority, the first row unexamined. */
  function Highest(rows: seq<Grant>): (r: Result<Grant, FoldError>) {
    if rows == [] then Err(NotFound)
    else if |rows| == 1 then Ok(rows[0])
    else
      var best := Highest(rows[..|rows| - 1]);
      if best.Err? then best
      else
        var last := rows[|rows| - 1];
        match ComparePermissions(best.value.permission, last.permission)
        case Err(e) => Err(e)
        case Ok(outranked) => Ok(if outranked then last else best.value)
  }

  /** The fold of the generic, registered-model and scorer repositories: nothing held at first. */
  method BestOfCandidates(rows: seq<Grant>) returns (r: Result<Grant, FoldError>)
    ensures r == Highest(rows)
  {
    var best: Option<Grant> := None;
    for i := 0 to |rows|
      invariant best.None? <==> i == 0
      invariant i > 0 ==> Highest(rows[..i]) == Ok(best.value)
    {
      assert rows[..i + 1][..i] == rows[..i];
      if best.None? {
        best := Some(rows[i]);
      } else {
        var outranked := ComparePermissions(best.value.permission, rows[i].permission);
        OneRowFurther(rows, i, outranked);
        if outranked.Err? {
          ErrorsStay(rows, i + 1);
          return Err(outranked.error);
        }
        if outranked.value {
          best := Some(rows[i]);
        }
      }
    }
    assert rows[..|rows|] == rows;
    r := if best.Some? then Ok(best.value) else Err(NotFound);
  }

  /** The fold of the workspace repository: the first row held, the others compared with it. */
  method HighestForUser(rows: seq<Grant>) returns (r: Result<Grant, FoldError>)
    ensures r == Highest(rows)
  {
    if rows == [] {
      return Err(NotFound);
    }
    var highest := rows[0];
    for i := 1 to |rows|
      invariant Highest(rows[..i]) == Ok(highest)
    {
      var outranked := ComparePermissions(highest.permission, rows[i].permission);
      OneRowFurther(rows, i, outranked);
      if outranked.Err? {
        ErrorsStay(rows, i + 1);
        return Err(outranked.error);
      }
      if outranked.value {
        highest := rows[i];
      }
    }
    assert rows[..|rows|] == rows;
    return Ok(highest);
  }

  lemma OneRowFurther(rows: seq<Grant>, i: nat, outranked: Result<bool, FoldError>)
    requires 0 < i < |rows| && Highest(rows[..i]).Ok?
    requires outranked == ComparePermissions(Highest(rows[..i]).value.permission, rows[i].permission)
    ensures Highest(rows[..i + 1]) == match outranked
                                      case Err(e) => Err(e)
                                      case Ok(yes) => Ok(if yes then rows[i] else Highest(rows[..i]).value)
  {
    assert rows[..i + 1][..i] == rows[..i];
  }

  lemma {:induction false} ErrorsStay(rows: seq<Grant>, i: nat)
    requires 0 < i <= |rows| && Highest(rows[..i]).Err?
    ensures Highest(rows) == Highest(rows[..i])
    decreases |rows|
  {
    if i == |rows| {
      assert rows[..i] == rows;
    } else {
      assert rows[..|rows| - 1][..i] == rows[..i];
      ErrorsStay(rows[..|rows| - 1], i);
    }
  }

  // ---------------------------------------------------------------------------------------------
  // What the fold computes
  // ---------------------------------------------------------------------------------------------

  predicate AllKnown(rows: seq<Grant>) { forall r :: r in rows ==> Known(r.permission) }

  /** No row outranks it. */
  predicate Greatest(best: Grant, rows: seq<Grant>) {
    && best in rows && Known(best.permission)
    && forall r :: r in rows ==> Known(r.permission) && PermissionNamed(r.permission).priority <= PermissionNamed(best.permission).priority
  }

  /** An unknown name is an error as soon as there are two rows; a single row is returned unread. */
  lemma {:induction false} FailsExactlyWhen(rows: seq<Grant>)
    ensures Highest(rows).Ok? <==> |rows| == 1 || (|rows| > 1 && AllKnown(rows))
    ensures Highest(rows).Err? ==> Highest(rows).error == if rows == [] then NotFound else InvalidPermission
    ensures Highest(rows).Ok? ==> Highest(rows).value in rows
  {
    if |rows| > 1 {
      var init, last := rows[..|rows| - 1], rows[|rows| - 1];
      FailsExactlyWhen(init);
      OneMoreRow(init, last);
      if Highest(init).Ok? {
        ComparisonFailsExactlyWhen(init, last);
      }
      assert rows == init + [last];
    }
  }

  lemma OneMoreRow(init: seq<Grant>, last: Grant)
    ensures forall r :: r in init + [last] <==> r in init || r == last
    ensures AllKnown(init + [last]) <==> AllKnown(init) && Known(last.permission)
  {
    assert last in init + [last];
    assert forall r :: r in init ==> r in init + [last];
  }

  lemma ComparisonFailsExactlyWhen(init: seq<Grant>, last: Grant)
    requires Highest(init).Ok? && init != []
    requires |init| > 1 ==> AllKnown(init)
    requires Highest(init).value in init
    ensures ComparePermissions(Highest(init).value.permission, last.permission).Err? <==> !(AllKnown(init) && Known(last.permission))
  {
    if |init| == 1 {
      assert init == [init[0]];
    }
  }

  lemma {:induction false} FoldFindsTheGreatest(rows: seq<Grant>)
    requires Highest(rows).Ok? && AllKnown(rows)
    ensures Greatest(Highest(rows).value, rows)
  {
    if |rows| > 1 {
      var init, last := rows[..|rows| - 1], rows[|rows| - 1];
      assert rows == init + [last];
      OneMoreRow(init, last);
      FoldFindsTheGreatest(init);
    }
  }

  /** The permission found does not depend on the order of the rows. */
  lemma OrderOfRowsIsImmaterial(rows: seq<Grant>, reordered: seq<Grant>)
    requires multiset(rows) == multiset(reordered)
    ensures Highest(rows).Ok? <==> Highest(reordered).Ok?
    ensures Highest(rows).Ok? ==> Highest(reordered).value.permission == Highest(rows).value.permission
    ensures Highest(rows).Err? ==> Highest(reordered) == Highest(rows)
  {
    ReorderedRowsAreTheSame(rows, reordered);
    FailsExactlyWhen(rows);
    FailsExactlyWhen(reordered);
    if |rows| == 1 {
      assert rows[0] in reordered;
    } else if Highest(rows).Ok? {
      FoldFindsTheGreatest(rows);
      FoldFindsTheGreatest(reordered);
      GreatestNamesAgree(Highest(rows).value, Highest(reordered).value, rows, reordered);
    }
  }

  lemma GreatestNamesAgree(best: Grant, other: Grant, rows: seq<Grant>, reordered: seq<Grant>)
    requires Greatest(best, rows) && Greatest(other, reordered) && forall r :: r in rows <==> r in reordered
    ensures best.permission == other.permission
  {
    PrioritiesAreDistinct(best.permission, other.permission);
  }

  lemma ReorderedRowsAreTheSame(rows: seq<Grant>, reordered: seq<Grant>)
    requires multiset(rows) == multiset(reordered)
    ensures |rows| == |reordered| && forall r :: r in rows <==> r in reordered
    ensures AllKnown(rows) <==> AllKnown(reordered)
  {
    assert |rows| == |multiset(rows)| == |multiset(reordered)| == |reordered|;
    forall r ensures r in rows <==> r in reordered {
      assert r in rows <==> r in multiset(rows);
      assert r in reordered <==> r in multiset(reordered);
    }
  }

  lemma PrioritiesAreDistinct(p: string, q: string)
    requires Known(p) && Known(q) && PermissionNamed(p).priority == PermissionNamed(q).priority
    ensures p == q
  {
  }

  /** Any group with NO_PERMISSIONS denies everything, whatever the other groups grant. */
  lemma NoPermissionsWins(rows: seq<Grant>)
    requires Highest(rows).Ok? && exists r :: r in rows && r.permission == NO_PERMISSIONS.name
    ensures Highest(rows).value.permission == NO_PERMISSIONS.name
  {
    FailsExactlyWhen(rows);
    if |rows| > 1 {
      FoldFindsTheGreatest(rows);
    }
  }

  /** Otherwise each capability is granted exactly when some group grants it. */
  lemma CapabilitiesAreTheUnion(rows: seq<Grant>)
    requires rows != [] && AllKnown(rows) && forall r :: r in rows ==> r.permission != NO_PERMISSIONS.name
    ensures Highest(rows).Ok? && Known(Highest(rows).value.permission)
    ensures var best := PermissionNamed(Highest(rows).value.permission);
            && (best.canRead <==> exists r :: r in rows && PermissionNamed(r.permission).canRead)
            && (best.canUse <==> exists r :: r in rows && PermissionNamed(r.permission).canUse)
            && (best.canUpdate <==> exists r :: r in rows && PermissionNamed(r.permission).canUpdate)
            && (best.canDelete <==> exists r :: r in rows && PermissionNamed(r.permission).canDelete)
            && (best.canManage <==> exists r :: r in rows && PermissionNamed(r.permission).canManage)
  {
    FailsExactlyWhen(rows);
    FoldFindsTheGreatest(rows);
    var best := Highest(rows).value;
    forall r | r in rows ensures Subsumes(PermissionNamed(best.permission), PermissionNamed(r.permission)) {
      HigherGrantsMore(best.permission, r.permission);
    }
  }

  /** The table, as permissions are documented: five names in rising order of priority, each of the first
      four adding capabilities to the one before it, and NO_PERMISSIONS above them all with none. */
  lemma TheTable(p: string, q: string)
    requires Known(p) && Known(q)
    ensures p in ["READ", "USE", "EDIT", "MANAGE", "NO_PERMISSIONS"]
    ensures var t := PermissionNamed(p);
            && t.name == p
            && (t.canRead <==> p in ["READ", "USE", "EDIT", "MANAGE"])
            && (t.canUse <==> p in ["USE", "EDIT", "MANAGE"])
            && (t.canUpdate <==> p in ["EDIT", "MANAGE"])
            && (t.canDelete <==> p == "MANAGE")
            && (t.canManage <==> p == "MANAGE")
    ensures PermissionNamed(p).priority <= PermissionNamed(q).priority <==>
              || p == q || p == "READ" || q == "NO_PERMISSIONS"
              || (p == "USE" && q in ["EDIT", "MANAGE"]) || (p == "EDIT" && q == "MANAGE")
    ensures ComparePermissions(p, q) == Ok(PermissionNamed(p).priority <= PermissionNamed(q).priority)
  {
  }

  lemma KnownNamesAre(p: string)
    ensures Known(p) <==> p in ["READ", "USE", "EDIT", "MANAGE", "NO_PERMISSIONS"]
  {
  }

  predicate Subsumes(p: Permission, q: Permission) {
    && (q.canRead ==> p.canRead) && (q.canUse ==> p.canUse) && (q.canUpdate ==> p.canUpdate)
    && (q.canDelete ==> p.canDelete) && (q.canManage ==> p.canManage)
  }

  lemma HigherGrantsMore(p: string, q: string)
    requires Known(p) && Known(q) && p != NO_PERMISSIONS.name
    requires PermissionNamed(q).priority <= PermissionNamed(p).priority
    ensures Subsumes(PermissionNamed(p), PermissionNamed(q))
  {
  }
}
