/** Pruning expired sessions is housekeeping: no run can tell whether, or when, it happened. */
module SweepRuns {
  import opened Wrappers
  import opened Ownership
  import opened Accounts
  import opened AccountRuns

  function WithoutSweeps(ops: seq<Op>): (r: seq<Op>) {
    if ops == [] then []
    else (if ops[0].Sweep? then [] else [ops[0]]) + WithoutSweeps(ops[1..])
  }

  predicate Live(sessions: map<string, Session>, now: Time, sid: string) {
    sid in sessions && sessions[sid].revoked.None? && sessions[sid].expires > now
  }

  /** The same sessions are still honoured, with the same rows. */
  ghost predicate SameLive(a: map<string, Session>, b: map<string, Session>, now: Time) {
    && (forall sid :: Live(a, now, sid) <==> Live(b, now, sid))
    && (forall sid :: Live(a, now, sid) ==> a[sid] == b[sid])
  }

  ghost predicate SameTables(a: Db, b: Db) {
    a.users == b.users && a.identities == b.identities && a.groups == b.groups && a.members == b.members && a.grants == b.grants
  }

  /** Equal in everything but session rows that are no longer honoured. */
  ghost predicate Alike(a: State, b: State) {
    a.now == b.now && a.issued == b.issued && SameTables(a.db, b.db) && SameLive(a.db.sessions, b.db.sessions, a.now)
  }

  /** The sessions listed as live for a user. */
  ghost function ListLive(s: State, name: string): (r: set<string>) {
    var found := Find(s.db.users, NormalizeUsername(name));
    if found.None? then {} else set sid | sid in s.db.sessions && Live(s.db.sessions, s.now, sid) && s.db.sessions[sid].user == found.value
  }

  lemma AlikeAnswersAlike(a: State, b: State, sid: string, name: string)
    requires Alike(a, b)
    ensures ResolveSession(a, sid) == ResolveSession(b, sid)
    ensures ListLive(a, name) == ListLive(b, name)
  {
    assert Live(a.db.sessions, a.now, sid) <==> Live(b.db.sessions, b.now, sid);
    forall k ensures k in ListLive(a, name) <==> k in ListLive(b, name) {
      assert Live(a.db.sessions, a.now, k) <==> Live(b.db.sessions, b.now, k);
    }
  }

  lemma RevokingKeepsSameLive(a: map<string, Session>, b: map<string, Session>, now: Time, id: UserId)
    requires SameLive(a, b, now)
    ensures SameLive(RevokedFor(a, id, now), RevokedFor(b, id, now), now)
  {
    forall sid ensures Live(RevokedFor(a, id, now), now, sid) <==> Live(a, now, sid) && a[sid].user != id
               ensures Live(RevokedFor(b, id, now), now, sid) <==> Live(b, now, sid) && b[sid].user != id
    {
    }
  }

  /** Whatever a call does to the session rows, it does alike to the ones still honoured. */
  lemma StepKeepsSameLive(mode: Enforcement, a: State, b: State, op: Op)
    requires Alike(a, b) && Enabled(a, op) && Attempt(mode, a, op).Ok? && Attempt(mode, b, op).Ok?
    ensures var x, y := Step(mode, a, op), Step(mode, b, op); SameLive(x.db.sessions, y.db.sessions, x.now)
  {
    match op
    case Update(name, _, _, _) => RevokingKeepsSameLive(a.db.sessions, b.db.sessions, a.now, Find(a.db.users, NormalizeUsername(name)).value);
    case RevokeUser(name) =>
      var found := Find(a.db.users, NormalizeUsername(name));
      if found.Some? { RevokingKeepsSameLive(a.db.sessions, b.db.sessions, a.now, found.value); }
    case Delete(name) => DeletingKeepsSameLive(a, b, Find(a.db.users, NormalizeUsername(name)).value);
    case Revoke(sid) =>
      RevokedLive(a, sid);
      RevokedLive(b, sid);
    case Tick(to) => LaterIsStillAlike(a.db.sessions, b.db.sessions, a.now, to);
    case Sweep =>
      PruningKeepsLive(a);
      PruningKeepsLive(b);
    case Open(sid, _, _, _) => OpeningKeepsSameLive(a.db.sessions, b.db.sessions, a.now, sid, Step(mode, a, op).db.sessions[sid]);
    case _ =>
  }

  lemma LaterIsStillAlike(a: map<string, Session>, b: map<string, Session>, now: Time, later: Time)
    requires SameLive(a, b, now) && now <= later
    ensures SameLive(a, b, later)
  {
    forall sid ensures Live(a, later, sid) ==> Live(a, now, sid)
               ensures Live(b, later, sid) ==> Live(b, now, sid)
    {
    }
  }

  lemma OpeningKeepsSameLive(a: map<string, Session>, b: map<string, Session>, now: Time, sid: string, row: Session)
    requires SameLive(a, b, now)
    ensures SameLive(a[sid := row], b[sid := row], now)
  {
    var x, y := a[sid := row], b[sid := row];
    forall k
      ensures Live(x, now, k) <==> Live(y, now, k)
      ensures Live(x, now, k) ==> x[k] == y[k]
    {
      if k != sid {
        assert Live(a, now, k) <==> Live(b, now, k);
      }
    }
  }

  lemma RevokedLive(s: State, sid: string)
    ensures forall k :: Live(RevokeSession(s.db, sid, s.now).sessions, s.now, k) <==> Live(s.db.sessions, s.now, k) && k != sid
  {
  }

  lemma PruningKeepsLive(s: State)
    ensures forall sid :: Live(PruneSessions(s.db, s.now).sessions, s.now, sid) <==> Live(s.db.sessions, s.now, sid)
  {
  }

  lemma DeletingKeepsSameLive(a: State, b: State, id: UserId)
    requires Alike(a, b)
    ensures SameLive(Without(a.db, id).sessions, Without(b.db, id).sessions, a.now)
  {
    forall sid ensures Live(Without(a.db, id).sessions, a.now, sid) <==> Live(a.db.sessions, a.now, sid) && a.db.sessions[sid].user != id
               ensures Live(Without(b.db, id).sessions, b.now, sid) <==> Live(b.db.sessions, b.now, sid) && b.db.sessions[sid].user != id
    {
    }
  }

  /** No verdict, and no table but the sessions, depends on the session rows. */
  lemma VerdictsIgnoreSessions(mode: Enforcement, a: State, b: State, op: Op)
    requires Alike(a, b)
    ensures Attempt(mode, a, op).Ok? <==> Attempt(mode, b, op).Ok?
    ensures SameTables(Step(mode, a, op).db, Step(mode, b, op).db)
  {
    if op.Create? || op.Update? || op.Delete? || op.BreakGlass? || op.SetOwners? {
      UserCallsIgnoreSessions(mode, a, b, op);
    } else {
      OtherCallsIgnoreSessions(mode, a, b, op);
    }
  }

  lemma UserCallsIgnoreSessions(mode: Enforcement, a: State, b: State, op: Op)
    requires Alike(a, b) && (op.Create? || op.Update? || op.Delete? || op.BreakGlass? || op.SetOwners?)
    ensures Attempt(mode, a, op).Ok? <==> Attempt(mode, b, op).Ok?
    ensures SameTables(Step(mode, a, op).db, Step(mode, b, op).db)
  {
  }

  lemma OtherCallsIgnoreSessions(mode: Enforcement, a: State, b: State, op: Op)
    requires Alike(a, b) && !(op.Create? || op.Update? || op.Delete? || op.BreakGlass? || op.SetOwners?)
    ensures Attempt(mode, a, op).Ok? <==> Attempt(mode, b, op).Ok?
    ensures SameTables(Step(mode, a, op).db, Step(mode, b, op).db)
  {
  }

  lemma StepKeepsAlike(mode: Enforcement, a: State, b: State, op: Op)
    requires Alike(a, b) && Enabled(a, op)
    ensures Enabled(b, op) && Alike(Step(mode, a, op), Step(mode, b, op))
    ensures Attempt(mode, a, op).Ok? <==> Attempt(mode, b, op).Ok?
  {
    VerdictsIgnoreSessions(mode, a, b, op);
    if Attempt(mode, a, op).Ok? {
      StepKeepsSameLive(mode, a, b, op);
    }
  }

  lemma SweepKeepsAlike(mode: Enforcement, a: State, b: State)
    requires Alike(a, b)
    ensures Alike(Step(mode, a, Sweep), b) && Alike(b, Step(mode, a, Sweep))
  {
    PruningKeepsLive(a);
  }

  /** Two runs of the same calls, with sweeps inserted anywhere in either, end in states that answer
      every later lookup alike. */
  lemma {:induction false} SweepingIsInvisible(mode: Enforcement, a: State, b: State, ops: seq<Op>, swept: seq<Op>)
    requires Alike(a, b) && Legal(mode, a, ops) && WithoutSweeps(ops) == WithoutSweeps(swept)
    ensures Legal(mode, b, swept)
    ensures Alike(Run(mode, a, ops), Run(mode, b, swept))
    decreases |ops| + |swept|
  {
    if ops != [] && ops[0].Sweep? {
      SweepKeepsAlike(mode, a, b);
      SweepingIsInvisible(mode, Step(mode, a, Sweep), b, ops[1..], swept);
    } else if swept != [] && swept[0].Sweep? {
      SweepKeepsAlike(mode, b, a);
      SweepingIsInvisible(mode, a, Step(mode, b, Sweep), ops, swept[1..]);
    } else if ops != [] {
      assert swept != [] && swept[0] == ops[0] by {
        assert WithoutSweeps(ops)[0] == ops[0];
      }
      assert WithoutSweeps(ops)[1..] == WithoutSweeps(ops[1..]);
      assert WithoutSweeps(swept)[1..] == WithoutSweeps(swept[1..]);
      StepKeepsAlike(mode, a, b, ops[0]);
      SweepingIsInvisible(mode, Step(mode, a, ops[0]), Step(mode, b, ops[0]), ops[1..], swept[1..]);
    } else {
      assert swept == [];
    }
  }
}
