/**
 In-flight login attempts (mlflow_oidc_auth/repository/auth_state.py).

 A callback consumes the attempt its `state` names in two steps that other callbacks may come
 between: it reads the row, and it deletes the row; the delete's row count says whether this
 callback claimed it.  The machine below interleaves any number of callbacks with creations,
 sweeps and a clock that never runs backwards.
 */
module LoginAttempts {
  import opened Wrappers

  type Time = int
  type Callback = nat

  datatype Row = Row(provider: Option<string>, redirect: Option<string>, expires: Time)

  datatype AuthAttempt = AuthAttempt(state: string, provider: string, redirect: Option<string>)

  function AttemptOf(state: string, r: Row): (result: AuthAttempt) {
    AuthAttempt(state, if r.provider.Some? then r.provider.value else "", r.redirect)
  }

  /** What a callback holds between its two steps. */
  datatype Held = Held(attempt: AuthAttempt, expired: bool)

  /** The table, the clock and the callbacks under way; and the history: every attempt created, every
      attempt handed out, and the states that left the table some other way. */
  datatype Machine = Machine(
    rows: map<string, Row>,
    now: Time,
    pending: map<Callback, Held>,
    created: map<string, Row>,
    handed: seq<AuthAttempt>,
    swept: set<string>,
    burned: set<string>)

  datatype Event =
    | Create(state: string, row: Row)
    | Read(cb: Callback, state: string)
    | Delete(cb: Callback)
    | Sweep
    | Tick(to: Time)

  predicate Enabled(m: Machine, e: Event) {
    match e
    case Create(state, _) => state !in m.created
    case Read(cb, _) => cb !in m.pending
    case Delete(cb) => cb in m.pending
    case Sweep => true
    case Tick(to) => m.now <= to
  }

  function Step(m: Machine, e: Event): (r: Machine) {
    match e
    case Create(state, row) => m.(rows := m.rows[state := row], created := m.created[state := row])
    case Read(cb, state) =>
      if state == "" || state !in m.rows then m
      else m.(pending := m.pending[cb := Held(AttemptOf(state, m.rows[state]), m.rows[state].expires <= m.now)])
    case Delete(cb) =>
      if cb !in m.pending then m
      else
        var held := m.pending[cb];
        var state := held.attempt.state;
        var rest := m.(pending := m.pending - {cb}, rows := m.rows - {state});
        if state !in m.rows then rest
        else if held.expired then rest.(burned := m.burned + {state})
        else rest.(handed := m.handed + [held.attempt])
    case Sweep =>
      var gone := set k | k in m.rows && m.rows[k].expires <= m.now;
      m.(rows := m.rows - gone, swept := m.swept + gone)
    case Tick(to) => m.(now := to)
  }

  function Run(m: Machine, events: seq<Event>): (r: Machine)
    decreases events
  {
    if events == [] then m else Run(Step(m, events[0]), events[1..])
  }

  predicate Legal(m: Machine, events: seq<Event>)
    decreases events
  {
    events == [] || (Enabled(m, events[0]) && Legal(Step(m, events[0]), events[1..]))
  }

  const START := Machine(map[], 0, map[], map[], [], {}, {})

  // ---------------------------------------------------------------------------------------------
  // Conservation: every attempt created has exactly one fate
  // ---------------------------------------------------------------------------------------------

  function States(handed: seq<AuthAttempt>): (r: set<string>) { set h | h in handed :: h.state }

  ghost predicate Conserved(m: Machine) {
    && m.created.Keys == m.rows.Keys + States(m.handed) + m.swept + m.burned
    && m.rows.Keys !! States(m.handed) + m.swept + m.burned
    && States(m.handed) !! m.swept + m.burned
    && m.swept !! m.burned
    && (forall i, j :: 0 <= i < j < |m.handed| ==> m.handed[i].state != m.handed[j].state)
  }

  /** Rows, held attempts and results all say what was recorded at creation. */
  ghost predicate Faithful(m: Machine) {
    && (forall k :: k in m.rows ==> k in m.created && m.rows[k] == m.created[k])
    && (forall c :: c in m.pending ==> FromCreation(m, m.pending[c].attempt))
    && (forall h :: h in m.handed ==> FromCreation(m, h))
  }

  ghost predicate FromCreation(m: Machine, a: AuthAttempt) {
    a.state in m.created && a == AttemptOf(a.state, m.created[a.state])
  }

  lemma StatesAppend(handed: seq<AuthAttempt>, a: AuthAttempt)
    ensures States(handed + [a]) == States(handed) + {a.state}
  {
    assert (handed + [a])[|handed|] == a;
    forall h | h in handed ensures h.state in States(handed + [a]) {
      assert h in handed + [a];
    }
  }

  lemma StepConserves(m: Machine, e: Event)
    requires Conserved(m) && Faithful(m) && Enabled(m, e)
    ensures Conserved(Step(m, e)) && Faithful(Step(m, e))
  {
    match e
    case Create(state, row) =>
      assert Step(m, e).rows.Keys == m.rows.Keys + {state};
    case Delete(cb) => DeleteConserves(m, cb);
    case Sweep => SweepConserves(m);
    case _ =>
  }

  lemma DeleteConserves(m: Machine, cb: Callback)
    requires Conserved(m) && Faithful(m) && cb in m.pending
    ensures Conserved(Step(m, Delete(cb))) && Faithful(Step(m, Delete(cb)))
  {
    DeleteMovesAnAttempt(m, cb);
    DeleteKeepsRecords(m, cb);
  }

  lemma DeleteMovesAnAttempt(m: Machine, cb: Callback)
    requires Conserved(m) && cb in m.pending
    ensures Conserved(Step(m, Delete(cb)))
  {
    var held := m.pending[cb];
    var state := held.attempt.state;
    if state in m.rows {
      StatesAppend(m.handed, held.attempt);
      assert Step(m, Delete(cb)).rows.Keys == m.rows.Keys - {state};
      assert forall h :: h in m.handed ==> h.state != state by {
        assert forall h :: h in m.handed ==> h.state in States(m.handed);
      }
    } else {
      assert Step(m, Delete(cb)).rows == m.rows;
    }
  }

  lemma DeleteKeepsRecords(m: Machine, cb: Callback)
    requires Faithful(m) && cb in m.pending
    ensures Faithful(Step(m, Delete(cb)))
  {
  }

  lemma SweepConserves(m: Machine)
    requires Conserved(m) && Faithful(m)
    ensures Conserved(Step(m, Sweep)) && Faithful(Step(m, Sweep))
  {
    var gone := set k | k in m.rows && m.rows[k].expires <= m.now;
    assert gone <= m.rows.Keys && Step(m, Sweep).rows.Keys == m.rows.Keys - gone;
  }

  /** In every interleaving an attempt is handed out at most once, and always with the provider and
      redirect it was created with; every attempt is still waiting, was handed out, was swept, or was
      claimed by a callback that read it too late, and only one of these. */
  lemma {:induction false} EveryAttemptHasOneFate(m: Machine, events: seq<Event>)
    requires Conserved(m) && Faithful(m) && Legal(m, events)
    ensures Conserved(Run(m, events)) && Faithful(Run(m, events))
    decreases events
  {
    if events != [] {
      StepConserves(m, events[0]);
      EveryAttemptHasOneFate(Step(m, events[0]), events[1..]);
    }
  }

  lemma HandedOutAtMostOnce(events: seq<Event>, i: nat, j: nat)
    requires Legal(START, events)
    requires var handed := Run(START, events).handed; i < |handed| && j < |handed| && handed[i].state == handed[j].state
    ensures i == j
    ensures var m := Run(START, events);
            var out := m.handed[i];
            && out.state in m.created
            && out.redirect == m.created[out.state].redirect
            && out.provider == (if m.created[out.state].provider.Some? then m.created[out.state].provider.value else "")
  {
    EveryAttemptHasOneFate(START, events);
    var m := Run(START, events);
    assert m.handed[i] in m.handed;
  }

  // ---------------------------------------------------------------------------------------------
  // Exactly once
  // ---------------------------------------------------------------------------------------------

  /** The next event is a claim: a callback that read the attempt in time deletes its row. */
  predicate ClaimsInTime(m: Machine, e: Event, state: string) {
    && e.Delete? && e.cb in m.pending
    && m.pending[e.cb].attempt.state == state && !m.pending[e.cb].expired && state in m.rows
  }

  predicate SomeClaimInTime(m: Machine, events: seq<Event>, state: string)
    decreases events
  {
    events != [] && (ClaimsInTime(m, events[0], state) || SomeClaimInTime(Step(m, events[0]), events[1..], state))
  }

  ghost predicate HandedOutOnce(m: Machine, state: string) {
    exists i :: 0 <= i < |m.handed| && m.handed[i].state == state && forall j :: 0 <= j < |m.handed| && j != i ==> m.handed[j].state != state
  }

  /** In any run an attempt is handed out exactly once if and only if it was before, or some callback
      that read it in time is the one whose delete finds the row. */
  lemma {:induction false} HandedOutIffClaimedInTime(m: Machine, events: seq<Event>, state: string)
    requires Conserved(m) && Faithful(m) && Legal(m, events)
    ensures HandedOutOnce(Run(m, events), state) <==> state in States(m.handed) || SomeClaimInTime(m, events, state)
    decreases events
  {
    if events == [] {
      OnceIfAtAll(m, state);
    } else {
      StepConserves(m, events[0]);
      StepHandsOut(m, events[0], state);
      HandedOutIffClaimedInTime(Step(m, events[0]), events[1..], state);
    }
  }

  lemma OnceIfAtAll(m: Machine, state: string)
    requires Conserved(m)
    ensures HandedOutOnce(m, state) <==> state in States(m.handed)
  {
    if state in States(m.handed) {
      var h :| h in m.handed && h.state == state;
      var i :| 0 <= i < |m.handed| && m.handed[i] == h;
      assert forall j :: 0 <= j < |m.handed| && j != i ==> m.handed[j].state != state;
    }
  }

  lemma StepHandsOut(m: Machine, e: Event, state: string)
    ensures state in States(Step(m, e).handed) <==> state in States(m.handed) || ClaimsInTime(m, e, state)
  {
    if e.Delete? && e.cb in m.pending {
      StatesAppend(m.handed, m.pending[e.cb].attempt);
    }
  }

  /** No callback read the attempt after it expired, and no sweep found it expired. */
  predicate Timely(m: Machine, events: seq<Event>, state: string)
    decreases events
  {
    || events == []
    || (&& (events[0] == Sweep || (events[0].Read? && events[0].state == state) ==> state in m.rows ==> m.now < m.rows[state].expires)
        && Timely(Step(m, events[0]), events[1..], state))
  }

  /** Some callback that read the attempt takes its second step. */
  predicate SomeCallbackFinishes(m: Machine, events: seq<Event>, state: string)
    decreases events
  {
    && events != []
    && ((events[0].Delete? && events[0].cb in m.pending && m.pending[events[0].cb].attempt.state == state)
        || SomeCallbackFinishes(Step(m, events[0]), events[1..], state))
  }

  /** Every callback holding the attempt read it in time, and it is waiting or was handed out. */
  ghost predicate Unspoilt(m: Machine, state: string) {
    && (forall c :: c in m.pending && m.pending[c].attempt.state == state ==> !m.pending[c].expired)
    && state in m.created && state !in m.swept && state !in m.burned
  }

  lemma StepKeepsUnspoilt(m: Machine, e: Event, state: string)
    requires Conserved(m) && Faithful(m) && Enabled(m, e) && Unspoilt(m, state)
    requires e == Sweep || (e.Read? && e.state == state) ==> state in m.rows ==> m.now < m.rows[state].expires
    ensures Unspoilt(Step(m, e), state)
  {
  }

  /** In particular, an attempt read only in time, never swept expired, and reached by the second step of
      some callback is handed out exactly once, whatever else the callbacks interleave with. */
  lemma HandedOutExactlyOnce(m: Machine, events: seq<Event>, state: string)
    requires Conserved(m) && Faithful(m) && Legal(m, events)
    requires Unspoilt(m, state) && Timely(m, events, state)
    requires state !in m.rows || SomeCallbackFinishes(m, events, state)
    ensures HandedOutOnce(Run(m, events), state)
  {
    if state in m.rows {
      TimelyCallbacksClaimInTime(m, events, state);
    }
    HandedOutIffClaimedInTime(m, events, state);
  }

  lemma {:induction false} TimelyCallbacksClaimInTime(m: Machine, events: seq<Event>, state: string)
    requires Conserved(m) && Faithful(m) && Legal(m, events)
    requires Unspoilt(m, state) && Timely(m, events, state)
    requires state in m.rows && SomeCallbackFinishes(m, events, state)
    ensures SomeClaimInTime(m, events, state)
    decreases events
  {
    if !ClaimsInTime(m, events[0], state) {
      StepConserves(m, events[0]);
      StepKeepsUnspoilt(m, events[0], state);
      TimelyCallbacksClaimInTime(Step(m, events[0]), events[1..], state);
    }
  }

  /** The next event is a claim by a callback that read the attempt too late. */
  predicate ClaimsLate(m: Machine, e: Event, state: string) {
    && e.Delete? && e.cb in m.pending
    && m.pending[e.cb].attempt.state == state && m.pending[e.cb].expired && state in m.rows
  }

  predicate SomeClaimLate(m: Machine, events: seq<Event>, state: string)
    decreases events
  {
    events != [] && (ClaimsLate(m, events[0], state) || SomeClaimLate(Step(m, events[0]), events[1..], state))
  }

  /** In any run an attempt is claimed and lost if and only if it was before, or the callback whose
      delete finds the row had read it too late. */
  lemma {:induction false} LostIffClaimedLate(m: Machine, events: seq<Event>, state: string)
    ensures state in Run(m, events).burned <==> state in m.burned || SomeClaimLate(m, events, state)
    decreases events
  {
    if events != [] {
      assert state in Step(m, events[0]).burned <==> state in m.burned || ClaimsLate(m, events[0], state);
      LostIffClaimedLate(Step(m, events[0]), events[1..], state);
    }
  }

  /** Reading in time is not enough by itself: a slower reader can claim the row first and, having
      read it after it expired, hand it to nobody. */
  lemma ALateReaderCanBurnAnAttempt()
    ensures var created := Step(START, Create("s", Row(Some("okta"), None, 10)));
            var readInTime := Step(created, Read(1, "s"));
            var readLate := Step(Step(readInTime, Tick(10)), Read(2, "s"));
            var done := Step(Step(readLate, Delete(2)), Delete(1));
            && 1 in readInTime.pending && readInTime.pending[1] == Held(AuthAttempt("s", "okta", None), false)
            && done.pending == map[] && done.rows == map[] && done.handed == []
  {
    var created := Step(START, Create("s", Row(Some("okta"), None, 10)));
    var readLate := Step(Step(Step(created, Read(1, "s")), Tick(10)), Read(2, "s"));
    assert readLate.pending[2].expired;
    var burned := Step(readLate, Delete(2));
    assert burned.rows == map[] && burned.pending.Keys == {1};
    assert Step(burned, Delete(1)).pending == map[];
  }

  // ---------------------------------------------------------------------------------------------
  // Sweeping
  // ---------------------------------------------------------------------------------------------

  /** A sweep between a callback's two steps changes what the callback returns exactly when it had
      read the attempt in time, the row is still there, and the row has expired meanwhile. */
  lemma SweepDuringACallbackShowsExactlyWhen(m: Machine, cb: Callback)
    requires cb in m.pending
    ensures var held := m.pending[cb];
            (Step(Step(m, Sweep), Delete(cb)).handed != Step(m, Delete(cb)).handed)
            <==> !held.expired && held.attempt.state in m.rows && m.rows[held.attempt.state].expires <= m.now
  {
    assert m.handed + [m.pending[cb].attempt] != m.handed by {
      assert |m.handed + [m.pending[cb].attempt]| == |m.handed| + 1;
    }
  }

  /** Whole callbacks: the two steps with nothing in between. */
  datatype Call = Begin(state: string, row: Row) | Consume(state: string) | Prune | Wait(to: Time)

  function Perform(m: Machine, c: Call): (r: Machine) {
    match c
    case Consume(state) => Step(Step(m, Read(0, state)), Delete(0))
    case Begin(state, row) => Step(m, Create(state, row))
    case Prune => Step(m, Sweep)
    case Wait(to) => Step(m, Tick(to))
  }

  predicate Allowed(m: Machine, c: Call) {
    match c
    case Begin(state, _) => state !in m.created
    case Wait(to) => m.now <= to
    case _ => true
  }

  function Calls(m: Machine, calls: seq<Call>): (r: Machine)
    decreases calls
  {
    if calls == [] then m else Calls(Perform(m, calls[0]), calls[1..])
  }

  predicate AllAllowed(m: Machine, calls: seq<Call>)
    decreases calls
  {
    calls == [] || (Allowed(m, calls[0]) && AllAllowed(Perform(m, calls[0]), calls[1..]))
  }

  function WithoutPrunes(calls: seq<Call>): (r: seq<Call>) {
    if calls == [] then [] else (if calls[0].Prune? then [] else [calls[0]]) + WithoutPrunes(calls[1..])
  }

  /** Equal but for rows that have expired. */
  ghost predicate Alike(a: Machine, b: Machine) {
    && a.now == b.now && a.created == b.created && a.handed == b.handed && a.pending == map[] && b.pending == map[]
    && (forall k :: (k in a.rows && a.rows[k].expires > a.now) <==> (k in b.rows && b.rows[k].expires > b.now))
    && (forall k :: k in a.rows && a.rows[k].expires > a.now ==> a.rows[k] == b.rows[k])
  }

  lemma CallKeepsAlike(a: Machine, b: Machine, c: Call)
    requires Alike(a, b) && Allowed(a, c)
    ensures Allowed(b, c) && Alike(Perform(a, c), Perform(b, c))
  {
    match c
    case Consume(state) =>
      ConsumeIs(a, state);
      ConsumeIs(b, state);
    case Wait(to) =>
      assert forall k :: k in a.rows && a.rows[k].expires > to ==> a.rows[k].expires > a.now;
      assert forall k :: k in b.rows && b.rows[k].expires > to ==> b.rows[k].expires > b.now;
    case _ =>
  }

  /** A whole callback hands out the attempt exactly when its row is there and has not expired, and
      leaves no row behind either way. */
  lemma ConsumeIs(m: Machine, state: string)
    requires m.pending == map[]
    ensures var after := Perform(m, Consume(state));
            && after.pending == map[] && after.now == m.now && after.created == m.created
            && after.rows == (if state == "" then m.rows else m.rows - {state})
            && after.handed == m.handed + if state != "" && state in m.rows && m.rows[state].expires > m.now
                                          then [AttemptOf(state, m.rows[state])] else []
  {
    var read := Step(m, Read(0, state));
    if state != "" && state in m.rows {
      assert read.pending - {0} == map[];
    } else {
      assert m.handed + [] == m.handed;
      assert state != "" ==> m.rows - {state} == m.rows;
    }
  }

  /** What a login stores is what its callback gets: its state, provider and redirect, until the row
      expires, and nothing from then on. */
  lemma CreatedAttemptsComeBack(m: Machine, state: string, provider: string, redirect: Option<string>, expires: Time, later: Time)
    requires m.pending == map[] && state != "" && state !in m.created && m.now <= later
    ensures var begun := Perform(m, Begin(state, Row(Some(provider), redirect, expires)));
            var back := Perform(Perform(begun, Wait(later)), Call.Consume(state));
            && back.handed == m.handed + (if later < expires then [AuthAttempt(state, provider, redirect)] else [])
            && back.rows == m.rows - {state} && back.now == later
  {
    ConsumeIs(Perform(Perform(m, Begin(state, Row(Some(provider), redirect, expires))), Wait(later)), state);
  }

  lemma PruneKeepsAlike(a: Machine, b: Machine)
    requires Alike(a, b)
    ensures Alike(Perform(a, Prune), b) && Alike(b, Perform(a, Prune))
  {
  }

  /** With callbacks run whole, pruning expired attempts anywhere in a run changes no result. */
  lemma {:induction false} PruningIsInvisible(a: Machine, b: Machine, calls: seq<Call>, pruned: seq<Call>)
    requires Alike(a, b) && AllAllowed(a, calls) && WithoutPrunes(calls) == WithoutPrunes(pruned)
    ensures AllAllowed(b, pruned) && Alike(Calls(a, calls), Calls(b, pruned))
    decreases |calls| + |pruned|
  {
    if calls != [] && calls[0].Prune? {
      PruneKeepsAlike(a, b);
      PruningIsInvisible(Perform(a, Prune), b, calls[1..], pruned);
    } else if pruned != [] && pruned[0].Prune? {
      PruneKeepsAlike(b, a);
      PruningIsInvisible(a, Perform(b, Prune), calls, pruned[1..]);
    } else if calls != [] {
      assert WithoutPrunes(calls)[0] == calls[0];
      assert pruned != [] && pruned[0] == calls[0];
      assert WithoutPrunes(calls)[1..] == WithoutPrunes(calls[1..]);
      assert WithoutPrunes(pruned)[1..] == WithoutPrunes(pruned[1..]);
      CallKeepsAlike(a, b, calls[0]);
      PruningIsInvisible(Perform(a, calls[0]), Perform(b, calls[0]), calls[1..], pruned[1..]);
    } else {
      assert pruned == [];
    }
  }

  // ---------------------------------------------------------------------------------------------
  // The repository
  // ---------------------------------------------------------------------------------------------

  /** The table as the repository's methods change it, each in one transaction. */
  class AuthStateRepository {
    var rows: map<string, Row>

    constructor ()
      ensures rows == map[]
    {
      rows := map[];
    }

    /** `state` is the fresh random value the repository draws. */
    method Create(state: string, provider: string, redirect: Option<string>, now: Time, lifetime: Time)
      requires state !in rows
      modifies this
      ensures rows == old(rows)[state := Row(Some(provider), redirect, now + lifetime)]
      ensures forall m: Machine :: old(MirroredBy(m, now)) ==>
                rows == Step(m, Event.Create(state, Row(Some(provider), redirect, now + lifetime))).rows
    {
      rows := rows[state := Row(Some(provider), redirect, now + lifetime)];
    }

    /** The first step of a consumption: what a callback of the machine holds after its read. */
    method Read(state: string, now: Time) returns (held: Option<Held>)
      ensures forall m: Machine, cb: Callback :: MirroredBy(m, now) && cb !in m.pending ==>
                held == if cb in Step(m, Event.Read(cb, state)).pending then Some(Step(m, Event.Read(cb, state)).pending[cb]) else None
      ensures held == if state == "" || state !in rows then None
                      else Some(Held(AttemptOf(state, rows[state]), rows[state].expires <= now))
    {
      if state == "" {
        return None;
      }
      if state !in rows {
        return None;
      }
      var row := rows[state];
      var attempt := AuthAttempt(state, if row.provider.Some? then row.provider.value else "", row.redirect);
      held := Some(Held(attempt, row.expires <= now));
    }

    /** The second step, against whatever other callbacks have left of the table: a counted delete. */
    method Claim(held: Held, now: Time) returns (result: Option<AuthAttempt>)
      modifies this
      ensures rows == old(rows) - {held.attempt.state}
      ensures result == if held.attempt.state in old(rows) && !held.expired then Some(held.attempt) else None
      ensures forall m: Machine, cb: Callback ::
                old(MirroredBy(m, now)) && cb in m.pending && m.pending[cb] == held ==>
                  && rows == Step(m, Delete(cb)).rows
                  && Step(m, Delete(cb)).handed == m.handed + if result.Some? then [result.value] else []
    {
      var claimed := if held.attempt.state in rows then 1 else 0;
      rows := rows - {held.attempt.state};
      if claimed == 0 {
        return None;
      }
      result := if held.expired then None else Some(held.attempt);
    }

    /** The machine's table and clock are these. */
    ghost predicate MirroredBy(m: Machine, now: Time) reads this { m.rows == rows && m.now == now }

    /** Both steps with nothing in between, as the machine performs them. */
    method Consume(state: string, now: Time) returns (result: Option<AuthAttempt>)
      modifies this
      ensures rows == if state == "" then old(rows) else old(rows) - {state}
      ensures result.Some? <==> state != "" && state in old(rows) && now < old(rows)[state].expires
      ensures result.Some? ==> result.value == AttemptOf(state, old(rows)[state])
      ensures forall m: Machine :: old(MirroredBy(m, now)) && m.pending == map[] ==>
                && rows == Perform(m, Call.Consume(state)).rows
                && Perform(m, Call.Consume(state)).handed == m.handed + if result.Some? then [result.value] else []
    {
      ghost var before := rows;
      var held := Read(state, now);
      if held.None? {
        result := None;
      } else {
        result := Claim(held.value, now);
      }
      forall m: Machine | m.rows == before && m.now == now && m.pending == map[]
        ensures rows == Perform(m, Call.Consume(state)).rows
        ensures Perform(m, Call.Consume(state)).handed == m.handed + if result.Some? then [result.value] else []
      {
        ConsumeIs(m, state);
      }
    }

    method DeleteExpired(cutoff: Time) returns (deleted: nat)
      modifies this
      ensures forall k :: k in rows <==> k in old(rows) && old(rows)[k].expires > cutoff
      ensures forall k :: k in rows ==> rows[k] == old(rows)[k]
      ensures deleted == |set k | k in old(rows) && old(rows)[k].expires <= cutoff|
      ensures forall m: Machine :: old(MirroredBy(m, cutoff)) ==> rows == Step(m, Sweep).rows
    {
      var gone := set k | k in rows && rows[k].expires <= cutoff;
      deleted := |gone|;
      rows := rows - gone;
    }
  }
}
