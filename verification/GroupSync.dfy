/**
 Group membership (mlflow_oidc_auth/repository/group.py, and the group half of
 mlflow_oidc_auth/provisioning_policy.py).
 */
module GroupSync {
  import opened Wrappers
  import opened Text
  import opened Accounts
  import opened IdentityPolicy
  import opened ProviderEntries
  import ServiceAccounts

  function LocalGroupName(p: Provider, claimed: string): (r: string) {
    if p.id == DEFAULT_PROVIDER_ID then claimed else p.id + ":" + claimed
  }

  function MapGroups(p: Provider, claimed: seq<string>): (r: seq<string>) {
    if claimed == [] then []
    else (if claimed[0] == "" then [] else [LocalGroupName(p, claimed[0])]) + MapGroups(p, claimed[1..])
  }

  /** The first occurrence of every name, in order. */
  function Dedupe(names: seq<string>): (r: seq<string>) {
    if names == [] then []
    else
      var init := Dedupe(names[..|names| - 1]);
      var last := names[|names| - 1];
      if last in init then init else init + [last]
  }

  function GroupsToApply(p: Provider, claimed: seq<string>, current: Option<seq<string>>, isNewUser: bool): (r: Option<seq<string>>) {
    if p.groupSync.SyncNever? || (p.groupSync.SyncFirstLogin? && !isNewUser) then None
    else
      var mapped := MapGroups(p, claimed);
      if p.groupMode.Authoritative? then Some(Dedupe(mapped))
      else if current.None? then None
      else Some(Dedupe(current.value + mapped))
  }

  function AdminFromClaims(p: Provider, claimed: seq<string>, adminGroups: seq<string>): (r: bool) {
    p.adminSource.FromClaims? && exists g :: g in adminGroups && g in claimed
  }

  ghost predicate NoDuplicates(names: seq<string>) {
    forall i, j :: 0 <= i < j < |names| ==> names[i] != names[j]
  }

  lemma {:induction false} DedupeKeepsTheSet(names: seq<string>)
    ensures NoDuplicates(Dedupe(names))
    ensures forall n :: n in Dedupe(names) <==> n in names
  {
    if names != [] {
      DedupeKeepsTheSet(names[..|names| - 1]);
      assert names == names[..|names| - 1] + [names[|names| - 1]];
    }
  }

  lemma {:induction false} MapGroupsMeans(p: Provider, claimed: seq<string>)
    ensures forall g :: g in MapGroups(p, claimed) <==> exists c :: c in claimed && c != "" && g == LocalGroupName(p, c)
  {
    if claimed != [] {
      MapGroupsMeans(p, claimed[1..]);
      assert claimed == [claimed[0]] + claimed[1..];
      forall g ensures g in MapGroups(p, claimed) <==> exists c :: c in claimed && c != "" && g == LocalGroupName(p, c) {
        if c :| c in claimed && c != "" && g == LocalGroupName(p, c) {
          assert c == claimed[0] || c in claimed[1..];
        }
      }
    }
  }

  /** The local name is the claim itself for the default provider, and the claim behind the provider's
      id and a colon for any other; blank claims name nothing. */
  ghost predicate Claimed(p: Provider, claimed: seq<string>, g: string) {
    exists c :: c in claimed && c != "" && g == if p.id == "default" then c else p.id + ":" + c
  }

  /** Groups are left alone exactly when the provider never syncs, or syncs at first login and this is
      another one, or would add to a membership that could not be read. Otherwise authoritative sync
      stores exactly the claimed groups and additive sync stores them beside everything the user
      already has; neither lists a group twice. */
  lemma GroupSyncIsExact(p: Provider, claimed: seq<string>, current: Option<seq<string>>, isNewUser: bool, g: string)
    ensures var out := GroupsToApply(p, claimed, current, isNewUser);
            && (out.None? <==>
                  || p.groupSync == SyncNever || (p.groupSync == SyncFirstLogin && !isNewUser)
                  || (p.groupMode == Additive && current.None?))
            && (out.Some? ==>
                  && NoDuplicates(out.value)
                  && (g in out.value <==> Claimed(p, claimed, g) || (p.groupMode == Additive && g in current.value)))
  {
    MapGroupsMeans(p, claimed);
    DedupeKeepsTheSet(MapGroups(p, claimed));
    if current.Some? {
      DedupeKeepsTheSet(current.value + MapGroups(p, claimed));
    }
    assert Claimed(p, claimed, g) <==> exists c :: c in claimed && c != "" && g == LocalGroupName(p, c);
  }

  /** A provider other than the default one cannot name a local group whose name has no colon. */
  lemma RawNamesAreOutOfReach(p: Provider, claimed: string, group: string)
    requires p.id != DEFAULT_PROVIDER_ID && ':' !in group
    ensures LocalGroupName(p, claimed) != group
  {
    assert LocalGroupName(p, claimed)[|p.id|] == ':';
  }

  /** Some claim of one provider and some claim of the other name the same local group. */
  ghost predicate GroupsCanMeet(p: Provider, q: Provider) {
    exists g, h :: g != "" && h != "" && LocalGroupName(p, g) == LocalGroupName(q, h)
  }

  /** Two providers can name a common group in exactly two situations: one of them is the default
      provider, whose raw names may contain the other's prefix, or one prefix extends the other. */
  lemma ProviderGroupsMeetIff(p: Provider, q: Provider)
    requires p.id != q.id
    ensures GroupsCanMeet(p, q) <==>
              || p.id == DEFAULT_PROVIDER_ID || q.id == DEFAULT_PROVIDER_ID
              || p.id + ":" <= q.id + ":" || q.id + ":" <= p.id + ":"
  {
    if p.id == DEFAULT_PROVIDER_ID {
      assert LocalGroupName(p, q.id + ":" + "x") == LocalGroupName(q, "x");
    } else if q.id == DEFAULT_PROVIDER_ID {
      assert LocalGroupName(p, "x") == LocalGroupName(q, p.id + ":" + "x");
    } else if p.id + ":" <= q.id + ":" {
      LongerPrefixMeets(p, q);
    } else if q.id + ":" <= p.id + ":" {
      LongerPrefixMeets(q, p);
      var g, h :| g != "" && h != "" && LocalGroupName(q, g) == LocalGroupName(p, h);
      assert LocalGroupName(p, h) == LocalGroupName(q, g);
    } else if g, h :| g != "" && h != "" && LocalGroupName(p, g) == LocalGroupName(q, h) {
      PrefixesOfOneText(p.id + ":", g, q.id + ":", h);
    }
  }

  lemma LongerPrefixMeets(p: Provider, q: Provider)
    requires p.id != DEFAULT_PROVIDER_ID && q.id != DEFAULT_PROVIDER_ID && p.id + ":" <= q.id + ":"
    ensures GroupsCanMeet(p, q)
  {
    var more := (q.id + ":")[|p.id + ":"|..];
    assert q.id + ":" == p.id + ":" + more;
    assert LocalGroupName(p, more + "x") == LocalGroupName(q, "x");
  }

  lemma PrefixesOfOneText(a: string, g: string, b: string, h: string)
    requires a + g == b + h
    ensures a <= b || b <= a
  {
    if |a| <= |b| {
      assert b == (a + g)[..|b|];
      assert a == (a + g)[..|a|];
    } else {
      assert a == (b + h)[..|a|];
      assert b == (b + h)[..|b|];
    }
  }

  /** Some claim of the provider names the group some service account is put in. */
  ghost predicate CanNameAClusterGroup(p: Provider) {
    exists g, a: ServiceAccounts.ServiceAccount :: g != "" && ServiceAccounts.ValidAccount(a) && LocalGroupName(p, g) == a.Group()
  }

  /** The groups of Kubernetes namespaces are within reach of exactly two providers: the default one,
      whose names are raw, and one whose id is the prefix those groups carry. */
  lemma ClusterGroupsAreReachedIff(p: Provider)
    ensures CanNameAClusterGroup(p) <==> p.id == DEFAULT_PROVIDER_ID || p.id == "k8s"
  {
    var a := ServiceAccounts.ServiceAccount("prod", "etl");
    assert ServiceAccounts.LabelShape("prod") && ServiceAccounts.LabelShape("etl");
    if p.id == DEFAULT_PROVIDER_ID {
      assert LocalGroupName(p, "k8s:prod") == a.Group();
    } else if p.id == "k8s" {
      assert LocalGroupName(p, "prod") == a.Group();
    } else if g, b: ServiceAccounts.ServiceAccount :| g != "" && ServiceAccounts.ValidAccount(b) && LocalGroupName(p, g) == b.Group() {
      ServiceAccounts.LabelsHaveNoSeparator(b.namespace);
      OneColonSplitsOneWay(p.id, g, "k8s", b.namespace);
    }
  }

  /** A text with one colon is split by it in one way. */
  lemma OneColonSplitsOneWay(a: string, g: string, b: string, h: string)
    requires a + ":" + g == b + ":" + h && ':' !in b && ':' !in h
    ensures a == b
  {
    var text := b + ":" + h;
    assert text[|a|] == ':';
    assert forall i :: 0 <= i < |text| && i != |b| ==> text[i] != ':';
    assert a == text[..|a|] && b == text[..|b|];
  }

  /** A login makes its user an administrator exactly when the provider's claims may and an administrator
      group is among them. */
  lemma AdminComesFromAnAdminGroup(p: Provider, claimed: seq<string>, adminGroups: seq<string>)
    ensures AdminFromClaims(p, claimed, adminGroups) <==>
              p.adminSource == FromClaims && !((set g | g in claimed) !! (set g | g in adminGroups))
  {
    if AdminFromClaims(p, claimed, adminGroups) {
      var g :| g in adminGroups && g in claimed;
      assert g in (set g | g in claimed) * (set g | g in adminGroups);
    }
  }

  /** Unless its entry says otherwise, no provider but the default one makes anybody an administrator. */
  lemma OnlyTheDefaultProviderConfersAdminUnasked(env: Environment, e: Entry, seenIds: set<string>, claimed: seq<string>, adminGroups: seq<string>)
    requires Validate(env, e, seenIds).Accepted? && "admin_source" !in e
    requires Validate(env, e, seenIds).provider.id != DEFAULT_PROVIDER_ID
    ensures !AdminFromClaims(Validate(env, e, seenIds).provider, claimed, adminGroups)
  {
  }

  // ---------------------------------------------------------------------------------------------
  // Writing memberships
  // ---------------------------------------------------------------------------------------------

  ghost function GroupsOf(db: Db, id: UserId): (r: set<string>) { set m | m in db.members && m.0 == id :: m.1 }

  /** Creating the missing groups and then setting a user's membership, as a login does. */
  ghost function PopulateThenSet(db: Db, name: string, names: seq<string>): (r: Result<Db, Refusal>) {
    SetGroups(CreateGroups(db, names), name, names)
  }

  /** A login's group write leaves the user in exactly the named groups, repeats or not, and everyone
      else where they were. */
  lemma MembershipIsExactlyTheClaim(db: Db, name: string, names: seq<string>, other: UserId)
    requires Find(db.users, name).Some?
    ensures PopulateThenSet(db, name, names).Ok?
    ensures var id := Find(db.users, name).value;
            var after := PopulateThenSet(db, name, names).value;
            && GroupsOf(after, id) == (set n | n in names)
            && (other != id ==> GroupsOf(after, other) == GroupsOf(db, other))
            && after.users == db.users && after.sessions == db.sessions && after.identities == db.identities && after.grants == db.grants
            && after.groups == db.groups + (set n | n in names)
  {
    var id := Find(db.users, name).value;
    var after := PopulateThenSet(db, name, names).value;
    forall g ensures g in GroupsOf(after, id) <==> g in names {
      if g in names { assert (id, g) in after.members; }
    }
    forall g ensures other != id ==> (g in GroupsOf(after, other) <==> g in GroupsOf(db, other)) {
      assert other != id ==> ((other, g) in after.members <==> (other, g) in db.members);
    }
  }

  /** Logging in again with the same claims changes nothing. */
  lemma SyncingTwiceIsANoOp(db: Db, name: string, names: seq<string>)
    requires Find(db.users, name).Some?
    ensures var once := PopulateThenSet(db, name, names).value; PopulateThenSet(once, name, names) == Ok(once)
  {
    var once := PopulateThenSet(db, name, names).value;
    var twice := PopulateThenSet(once, name, names).value;
    assert once.groups == twice.groups;
    assert once.members == twice.members;
  }

  /** The tables the group repository writes: group names are unique, and so is a (user, group) pair. */
  class GroupTables {
    var groups: seq<string>
    var links: seq<(UserId, string)>

    ghost predicate Valid() reads this {
      NoDuplicates(groups) && forall i, j :: 0 <= i < j < |links| ==> links[i] != links[j]
    }

    constructor ()
      ensures Valid() && groups == [] && links == []
    {
      groups, links := [], [];
    }

    method CreateGroups(names: seq<string>)
      requires Valid()
      modifies this`groups
      ensures Valid() && old(groups) <= groups
      ensures forall g :: g in groups <==> g in old(groups) || g in names
    {
      for i := 0 to |names|
        invariant Valid() && old(groups) <= groups
        invariant forall g :: g in groups <==> g in old(groups) || g in names[..i]
      {
        assert names[..i + 1] == names[..i] + [names[i]];
        if names[i] !in groups {
          groups := groups + [names[i]];
        }
      }
      assert names[..|names|] == names;
    }

    /** Replaces the memberships of `user`; refused, with nothing changed, when a group is missing. */
    method SetGroupsForUser(user: UserId, names: seq<string>) returns (ok: bool)
      requires Valid()
      modifies this`links
      ensures Valid()
      ensures ok <==> forall n :: n in names ==> n in groups
      ensures !ok ==> links == old(links)
      ensures ok ==> forall u, g :: (u, g) in links <==> if u == user then g in names else (u, g) in old(links)
    {
      var unique := DedupeLoop(names);
      ghost var before := links;
      var kept := LinksOfOthers(user);
      var added: seq<(UserId, string)> := [];
      for i := 0 to |unique|
        invariant links == before
        invariant |added| == i && forall k :: 0 <= k < i ==> added[k] == (user, unique[k])
        invariant forall k :: 0 <= k < i ==> unique[k] in groups
      {
        if unique[i] !in groups {
          assert unique[i] in names;
          return false;
        }
        added := added + [(user, unique[i])];
      }
      links := kept + added;
      ok := true;
      forall u, g ensures (u, g) in links <==> if u == user then g in names else (u, g) in before {
        if u == user && g in names {
          assert g in unique;
          var k :| 0 <= k < |unique| && unique[k] == g;
          assert added[k] == (u, g);
          assert (kept + added)[|kept| + k] == (u, g);
        }
        if u != user && (u, g) in before {
          assert (u, g) in kept;
        }
      }
    }

    /** Deleting a user's rows. */
    method LinksOfOthers(user: UserId) returns (kept: seq<(UserId, string)>)
      requires Valid()
      ensures forall i, j :: 0 <= i < j < |kept| ==> kept[i] != kept[j]
      ensures forall l :: l in kept <==> l in links && l.0 != user
    {
      kept := [];
      for i := 0 to |links|
        invariant forall l :: l in kept <==> l in links[..i] && l.0 != user
        invariant forall a, b :: 0 <= a < b < |kept| ==> kept[a] != kept[b]
      {
        assert links[..i + 1] == links[..i] + [links[i]];
        assert links[i] !in links[..i];
        if links[i].0 != user {
          kept := kept + [links[i]];
        }
      }
      assert links[..|links|] == links;
    }
  }

  /** `list(dict.fromkeys(names))`. */
  method DedupeLoop(names: seq<string>) returns (unique: seq<string>)
    ensures unique == Dedupe(names)
    ensures NoDuplicates(unique) && forall n :: n in unique <==> n in names
  {
    unique := [];
    assert names[..0] == [];
    for i := 0 to |names|
      invariant unique == Dedupe(names[..i])
    {
      assert names[..i + 1][..i] == names[..i];
      if names[i] !in unique {
        unique := unique + [names[i]];
      }
    }
    assert names[..|names|] == names;
    DedupeKeepsTheSet(names);
  }
}
