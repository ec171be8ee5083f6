/**
 Search-page filtering (mlflow_oidc_auth/hooks/after_request.py).

 MLflow answers a search with one page of a fixed raw list and a resume token.  The hook removes
 the rows the user may not read, fetches further rows until the page is full again, and writes a
 new token.  Two algorithms do the refill: experiments, registered models and model versions trim
 each refetched page to the space left; logged models scan a whole page and break at the row that
 fills the response.  Both are proved against `Scan`, which looks at one raw row at a time, and
 the chain of requests a client makes is proved to deliver exactly the readable rows.
 */
module SearchRefill {
  import opened Wrappers

  /** What the permission services answer while one chain of requests runs. */
  datatype Policy = Policy(
    canRead: (Kind, string, string) -> bool,
    workspacesEnabled: bool,
    workspaceReadable: (string, string) -> bool,
    locate: string -> Option<string>)

  datatype Kind = Experiment | RegisteredModel

  /** One row of a search result: the experiment or model that governs it, the workspace the row
      itself carries, and whatever else tells rows apart. */
  datatype Row = Row(resource: string, workspace: Option<string>, detail: string)

  /** Which of the hook's checks a row has been put through. */
  datatype Check = ReadOnly | LocatedOnly | Located | Carried

  predicate InWorkspace(p: Policy, user: string, workspace: Option<string>) {
    !p.workspacesEnabled || workspace.None? || workspace.value == "" || p.workspaceReadable(workspace.value, user)
  }

  /** `Located` is the check of a first page, which asks the store where a resource lives (a failed
      lookup answers None); `Carried` is the check of a refetched row, which brings its workspace. */
  predicate Passes(p: Policy, kind: Kind, user: string, c: Check, r: Row) {
    match c
    case ReadOnly => p.canRead(kind, r.resource, user)
    case LocatedOnly => InWorkspace(p, user, p.locate(r.resource))
    case Located => p.canRead(kind, r.resource, user) && InWorkspace(p, user, p.locate(r.resource))
    case Carried => p.canRead(kind, r.resource, user) && InWorkspace(p, user, r.workspace)
  }

  /** The filter a request runs under. */
  datatype Context = Context(policy: Policy, kind: Kind, user: string) {
    predicate Ok(c: Check, r: Row) { Passes(policy, kind, user, c, r) }

    /** The store and the row lead to different verdicts. */
    predicate Disputed(r: Row) { Ok(Located, r) != Ok(Carried, r) }

    ghost predicate Agree(raw: seq<Row>) {
      forall i :: 0 <= i < |raw| ==> !Disputed(raw[i])
    }

    /** From `start` on, no row is disputed once a row has failed the first-page check. */
    ghost predicate SettledAfterAFailure(raw: seq<Row>, start: nat) {
      forall i, j :: start <= j < i < |raw| && Disputed(raw[i]) ==> Ok(Located, raw[j])
    }
  }

  function Filter(x: Context, c: Check, rows: seq<Row>): (r: seq<Row>) {
    if rows == [] then []
    else (if x.Ok(c, rows[0]) then [rows[0]] else []) + Filter(x, c, rows[1..])
  }

  function Min(a: nat, b: nat): (r: nat) { if a <= b then a else b }

  /** A page of the raw list, and the offset its token encodes; there is a token exactly when rows remain. */
  datatype Page = Page(rows: seq<Row>, next: Option<nat>)

  function Fetch(raw: seq<Row>, offset: nat, max: nat): (r: Page) {
    var from := Min(offset, |raw|);
    var to := Min(offset + max, |raw|);
    Page(raw[from..to], if offset + max < |raw| then Some(offset + max) else None)
  }

  // ---------------------------------------------------------------------------------------------
  // The request-scoped memo
  // ---------------------------------------------------------------------------------------------

  datatype MemoKey = ReadKey(kind: Kind, resource: string, user: string) | WorkspaceKey(workspace: string, user: string)

  /** The plain answer a memo entry stands for. */
  predicate Plain(p: Policy, k: MemoKey) {
    match k
    case ReadKey(kind, resource, user) => p.canRead(kind, resource, user)
    case WorkspaceKey(workspace, user) => p.workspaceReadable(workspace, user)
  }

  class RequestMemo {
    const policy: Policy
    var entries: map<MemoKey, bool>

    ghost predicate Valid() reads this {
      forall k :: k in entries ==> entries[k] == Plain(policy, k)
    }

    constructor (policy: Policy)
      ensures Valid() && fresh(this) && this.policy == policy
    {
      this.policy := policy;
      entries := map[];
    }

    method CanRead(kind: Kind, resource: string, user: string) returns (ok: bool)
      requires Valid()
      modifies this`entries
      ensures Valid() && old(entries.Keys) <= entries.Keys
      ensures ok == policy.canRead(kind, resource, user)
    {
      var key := ReadKey(kind, resource, user);
      if key !in entries {
        entries := entries[key := policy.canRead(kind, resource, user)];
      }
      ok := entries[key];
    }

    method CanAccessWorkspace(user: string, workspace: Option<string>) returns (ok: bool)
      requires Valid()
      modifies this`entries
      ensures Valid() && old(entries.Keys) <= entries.Keys
      ensures ok == InWorkspace(policy, user, workspace)
    {
      if !policy.workspacesEnabled {
        return true;
      }
      if workspace.None? || workspace.value == "" {
        return true;
      }
      var key := WorkspaceKey(workspace.value, user);
      if key !in entries {
        entries := entries[key := policy.workspaceReadable(workspace.value, user)];
      }
      ok := entries[key];
    }
  }

  // ---------------------------------------------------------------------------------------------
  // Removing unreadable rows from a page in place
  // ---------------------------------------------------------------------------------------------

  /** A repeated field's `remove`: drops the first element equal to `r`. */
  function RemoveFirst(rows: seq<Row>, r: Row): (result: seq<Row>) {
    if rows == [] then []
    else if rows[0] == r then rows[1..]
    else [rows[0]] + RemoveFirst(rows[1..], r)
  }

  lemma {:induction false} RemoveFirstPast(kept: seq<Row>, r: Row, rest: seq<Row>)
    requires r !in kept
    ensures RemoveFirst(kept + [r] + rest, r) == kept + rest
  {
    if kept == [] {
      assert [] + [r] + rest == [r] + rest;
      assert [] + rest == rest;
    } else {
      RemoveFirstPast(kept[1..], r, rest);
      assert (kept + [r] + rest)[1..] == kept[1..] + [r] + rest;
      assert kept + rest == [kept[0]] + (kept[1..] + rest);
    }
  }

  lemma {:induction false} FilterAppend(x: Context, c: Check, a: seq<Row>, b: seq<Row>)
    ensures Filter(x, c, a + b) == Filter(x, c, a) + Filter(x, c, b)
  {
    if a == [] {
      assert a + b == b;
    } else {
      FilterAppend(x, c, a[1..], b);
      assert (a + b)[1..] == a[1..] + b;
      var head := if x.Ok(c, a[0]) then [a[0]] else [];
      JoinsAssociate(head, Filter(x, c, a[1..]), Filter(x, c, b));
    }
  }

  lemma {:induction false} FilterKeepsOnlyPassing(x: Context, c: Check, rows: seq<Row>)
    ensures forall r :: r in Filter(x, c, rows) <==> r in rows && x.Ok(c, r)
    ensures |Filter(x, c, rows)| <= |rows|
  {
    if rows != [] {
      FilterKeepsOnlyPassing(x, c, rows[1..]);
      assert rows == [rows[0]] + rows[1..];
    }
  }

  lemma FilterExtend(x: Context, c: Check, rows: seq<Row>, i: nat)
    requires i < |rows|
    ensures Filter(x, c, rows[..i + 1]) == Filter(x, c, rows[..i]) + if x.Ok(c, rows[i]) then [rows[i]] else []
  {
    FilterAppend(x, c, rows[..i], [rows[i]]);
    assert rows[..i + 1] == rows[..i] + [rows[i]];
    assert Filter(x, c, [rows[i]]) == if x.Ok(c, rows[i]) then [rows[i]] else [];
  }

  /** One step of an in-place pass: the rows still ahead are untouched, the passed ones are filtered. */
  lemma PassStep(x: Context, c: Check, rows: seq<Row>, i: nat)
    requires i < |rows|
    ensures var now := Filter(x, c, rows[..i]) + rows[i..];
            Filter(x, c, rows[..i + 1]) + rows[i + 1..] == if x.Ok(c, rows[i]) then now else RemoveFirst(now, rows[i])
  {
    FilterExtend(x, c, rows, i);
    var kept := Filter(x, c, rows[..i]);
    assert rows[i..] == [rows[i]] + rows[i + 1..];
    JoinsAssociate(kept, [rows[i]], rows[i + 1..]);
    if !x.Ok(c, rows[i]) {
      FilterKeepsOnlyPassing(x, c, rows[..i]);
      RemoveFirstPast(kept, rows[i], rows[i + 1..]);
      assert kept + [] == kept;
    }
  }

  lemma {:induction false} FilterTwice(x: Context, rows: seq<Row>)
    ensures Filter(x, LocatedOnly, Filter(x, ReadOnly, rows)) == Filter(x, Located, rows)
  {
    if rows != [] {
      FilterTwice(x, rows[1..]);
      var rest := Filter(x, ReadOnly, rows[1..]);
      FilterAppend(x, LocatedOnly, if x.Ok(ReadOnly, rows[0]) then [rows[0]] else [], rest);
    }
  }

  lemma {:induction false} FilterSame(x: Context, c: Check, d: Check, rows: seq<Row>)
    requires forall i :: 0 <= i < |rows| ==> (x.Ok(c, rows[i]) <==> x.Ok(d, rows[i]))
    ensures Filter(x, c, rows) == Filter(x, d, rows)
  {
    if rows != [] {
      FilterSame(x, c, d, rows[1..]);
    }
  }

  /** The two removal loops over a first page, as the hook runs them on the response message. */
  method FilterFirstPage(x: Context, memo: RequestMemo, page: seq<Row>) returns (rows: seq<Row>)
    requires memo.Valid() && memo.policy == x.policy
    modifies memo`entries
    ensures memo.Valid()
    ensures rows == Filter(x, Located, page)
  {
    rows := FilterByRead(x, memo, page);
    FilterTwice(x, page);
    if x.policy.workspacesEnabled {
      rows := FilterByWorkspace(x, memo, rows);
    } else {
      FilterSame(x, ReadOnly, Located, page);
    }
  }

  /** The read pass: remove every row whose resource may not be read. */
  method FilterByRead(x: Context, memo: RequestMemo, page: seq<Row>) returns (rows: seq<Row>)
    requires memo.Valid() && memo.policy == x.policy
    modifies memo`entries
    ensures memo.Valid()
    ensures rows == Filter(x, ReadOnly, page)
  {
    rows := page;
    var i := 0;
    assert page[..0] == [] && page[0..] == page;
    while i < |page|
      invariant i <= |page| && memo.Valid()
      invariant rows == Filter(x, ReadOnly, page[..i]) + page[i..]
    {
      PassStep(x, ReadOnly, page, i);
      var ok := memo.CanRead(x.kind, page[i].resource, x.user);
      if !ok {
        rows := RemoveFirst(rows, page[i]);
      }
      i := i + 1;
    }
    assert page[..|page|] == page && page[|page|..] == [];
  }

  /** The workspace pass: look every row's resource up first, then remove what may not be seen. */
  method FilterByWorkspace(x: Context, memo: RequestMemo, page: seq<Row>) returns (rows: seq<Row>)
    requires memo.Valid() && memo.policy == x.policy
    modifies memo`entries
    ensures memo.Valid()
    ensures rows == Filter(x, LocatedOnly, page)
  {
    var located: map<string, Option<string>> := map[];
    for j := 0 to |page|
      invariant forall k :: 0 <= k < j ==> page[k].resource in located
      invariant forall s :: s in located ==> located[s] == x.policy.locate(s)
    {
      located := located[page[j].resource := x.policy.locate(page[j].resource)];
    }
    rows := page;
    var i := 0;
    assert page[..0] == [] && page[0..] == page;
    while i < |page|
      invariant i <= |page| && memo.Valid()
      invariant rows == Filter(x, LocatedOnly, page[..i]) + page[i..]
    {
      PassStep(x, LocatedOnly, page, i);
      var ok := memo.CanAccessWorkspace(x.user, located[page[i].resource]);
      if !ok {
        rows := RemoveFirst(rows, page[i]);
      }
      i := i + 1;
    }
    assert page[..|page|] == page && page[|page|..] == [];
  }

  // ---------------------------------------------------------------------------------------------
  // The refill, one raw row at a time
  // ---------------------------------------------------------------------------------------------

  /** What a refill with `room` free places collects from `offset`, and where it stops: just past
      the row that took the last place, or at the end of the list. */
  function Scan(x: Context, c: Check, raw: seq<Row>, room: nat, offset: nat): (s: (seq<Row>, nat))
    requires offset <= |raw|
    decreases |raw| - offset
  {
    if room == 0 || offset == |raw| then ([], offset)
    else if x.Ok(c, raw[offset]) then
      var rest := Scan(x, c, raw, room - 1, offset + 1);
      ([raw[offset]] + rest.0, rest.1)
    else Scan(x, c, raw, room, offset + 1)
  }

  /** A scan collects exactly the passing rows of the stretch it covers, fits its room, and stops
      early only when full. */
  lemma {:induction false} ScanCovers(x: Context, c: Check, raw: seq<Row>, room: nat, offset: nat)
    requires offset <= |raw|
    ensures var (rows, stop) := Scan(x, c, raw, room, offset);
            && offset <= stop <= |raw|
            && rows == Filter(x, c, raw[offset..stop])
            && |rows| <= room
            && (|rows| < room ==> stop == |raw|)
            && (room > 0 && offset < |raw| ==> offset < stop)
    decreases |raw| - offset
  {
    if room > 0 && offset < |raw| {
      var stop := Scan(x, c, raw, room, offset).1;
      if x.Ok(c, raw[offset]) {
        ScanCovers(x, c, raw, room - 1, offset + 1);
      } else {
        ScanCovers(x, c, raw, room, offset + 1);
      }
      assert raw[offset..stop][1..] == raw[offset + 1..stop];
    }
  }

  lemma FilterOfSlice(x: Context, c: Check, raw: seq<Row>, start: nat, stop: nat)
    requires start < stop <= |raw|
    ensures Filter(x, c, raw[start..stop]) == (if x.Ok(c, raw[start]) then [raw[start]] else []) + Filter(x, c, raw[start + 1..stop])
  {
    assert raw[start..stop][1..] == raw[start + 1..stop];
  }

  /** Taking any stretch no longer than the free room first changes nothing: a scan resumes. */
  lemma {:induction false} ScanSplits(x: Context, c: Check, raw: seq<Row>, room: nat, offset: nat, step: nat)
    requires offset + step <= |raw| && step <= room
    ensures var got := Filter(x, c, raw[offset..offset + step]);
            && |got| <= room
            && Scan(x, c, raw, room, offset).0 == got + Scan(x, c, raw, room - |got|, offset + step).0
            && Scan(x, c, raw, room, offset).1 == Scan(x, c, raw, room - |got|, offset + step).1
    decreases step
  {
    if step > 0 {
      FilterOfSlice(x, c, raw, offset, offset + step);
      var later := Filter(x, c, raw[offset + 1..offset + step]);
      if x.Ok(c, raw[offset]) {
        ScanSplits(x, c, raw, room - 1, offset + 1, step - 1);
        JoinsAssociate([raw[offset]], later, Scan(x, c, raw, room - 1 - |later|, offset + step).0);
      } else {
        ScanSplits(x, c, raw, room, offset + 1, step - 1);
        assert [] + later == later;
      }
    } else {
      assert raw[offset..offset + step] == [];
      assert [] + Scan(x, c, raw, room, offset).0 == Scan(x, c, raw, room, offset).0;
    }
  }

  // ---------------------------------------------------------------------------------------------
  // Trim, then filter: experiments, registered models, model versions
  // ---------------------------------------------------------------------------------------------

  /** The page the offset-token searches are meant to return for a request at `start`. */
  function OffsetPage(x: Context, raw: seq<Row>, start: nat, max: nat): (r: Page) {
    var first := Fetch(raw, start, max);
    var rows := Filter(x, Located, first.rows);
    if first.next.None? || |rows| >= max then Page(rows, first.next)
    else
      var (more, stop) := Scan(x, Carried, raw, max - |rows|, first.next.value);
      Page(rows + more, if |rows| + |more| == max then Some(stop) else None)
  }

  method FilterSearchByOffset(x: Context, raw: seq<Row>, start: nat, max: nat) returns (response: Page)
    requires max > 0
    ensures response == OffsetPage(x, raw, start, max)
  {
    var memo := new RequestMemo(x.policy);
    var first := Fetch(raw, start, max);
    var rows := FilterFirstPage(x, memo, first.rows);
    FilterKeepsOnlyPassing(x, Located, first.rows);
    var next := first.next;
    if |rows| < max && next.Some? {
      rows, next := RefillTrimmed(x, memo, raw, rows, next.value, max);
    }
    response := Page(rows, next);
  }

  lemma TrimmedFetch(raw: seq<Row>, offset: nat, max: nat, remaining: nat)
    requires offset <= |raw|
    ensures var rows := Fetch(raw, offset, max).rows;
            var cut := rows[..Min(remaining, |rows|)];
            offset + |cut| <= |raw| && cut == raw[offset..offset + |cut|]
  {
    var rows := Fetch(raw, offset, max).rows;
    var n := Min(remaining, |rows|);
    assert |rows| == Min(offset + max, |raw|) - offset;
    forall i | 0 <= i < n ensures rows[..n][i] == raw[offset..offset + n][i] {
    }
  }

  /** The refill loop: fetch a page, cut it to the space left, keep the readable rows of the cut. */
  method RefillTrimmed(x: Context, memo: RequestMemo, raw: seq<Row>, have: seq<Row>, from: nat, max: nat)
    returns (rows: seq<Row>, next: Option<nat>)
    requires memo.Valid() && memo.policy == x.policy
    requires |have| < max && from < |raw|
    modifies memo`entries
    ensures memo.Valid()
    ensures var (more, stop) := Scan(x, Carried, raw, max - |have|, from);
            rows == have + more && next == if |have| + |more| == max then Some(stop) else None
  {
    rows, next := have, Some(from);
    ghost var all := Scan(x, Carried, raw, max - |have|, from);
    while |rows| < max && next.Some?
      invariant memo.Valid()
      invariant |have| <= |rows| <= max
      invariant next.Some? ==> next.value <= |raw| && TrimmedSoFar(x, raw, max, have, all, rows, next.value)
      invariant next.None? ==> |rows| < max && rows == have + all.0
      decreases if next.Some? then 1 + |raw| - next.value else 0
    {
      var refetched := Fetch(raw, next.value, max).rows;
      var remaining := max - |rows|;
      refetched := refetched[..Min(remaining, |refetched|)];
      if |refetched| == 0 {
        TrimmedDone(x, raw, max, have, all, rows, next.value);
        next := None;
        break;
      }
      TrimmedFetch(raw, next.value, max, remaining);
      TrimmedStep(x, raw, max, have, all, rows, next.value, |refetched|);
      var readable := FilterRefetched(x, memo, refetched);
      rows := rows + readable;
      next := Some(next.value + |refetched|);
    }
    if next.Some? {
      TrimmedDone(x, raw, max, have, all, rows, next.value);
    }
  }

  /** With no room left, or no row, the scan is complete. */
  lemma TrimmedDone(x: Context, raw: seq<Row>, max: nat, have: seq<Row>, all: (seq<Row>, nat), rows: seq<Row>, offset: nat)
    requires |rows| <= max && offset <= |raw| && TrimmedSoFar(x, raw, max, have, all, rows, offset)
    requires |rows| == max || offset == |raw|
    ensures rows == have + all.0 && all.1 == offset
  {
    assert rows + [] == rows;
  }

  /** The rows collected so far and a scan from `offset` with the room left make up the whole scan. */
  ghost predicate TrimmedSoFar(x: Context, raw: seq<Row>, max: nat, have: seq<Row>, all: (seq<Row>, nat), rows: seq<Row>, offset: nat)
    requires |rows| <= max && offset <= |raw|
  {
    var rest := Scan(x, Carried, raw, max - |rows|, offset);
    have + all.0 == rows + rest.0 && all.1 == rest.1
  }

  lemma TrimmedStep(x: Context, raw: seq<Row>, max: nat, have: seq<Row>, all: (seq<Row>, nat), rows: seq<Row>, offset: nat, step: nat)
    requires |rows| <= max && offset + step <= |raw| && step <= max - |rows|
    requires TrimmedSoFar(x, raw, max, have, all, rows, offset)
    ensures var readable := Filter(x, Carried, raw[offset..offset + step]);
            |readable| <= step && TrimmedSoFar(x, raw, max, have, all, rows + readable, offset + step)
  {
    ScanSplits(x, Carried, raw, max - |rows|, offset, step);
    FilterKeepsOnlyPassing(x, Carried, raw[offset..offset + step]);
  }

  /** The list comprehension over a refetched page. */
  method FilterRefetched(x: Context, memo: RequestMemo, page: seq<Row>) returns (rows: seq<Row>)
    requires memo.Valid() && memo.policy == x.policy
    modifies memo`entries
    ensures memo.Valid()
    ensures rows == Filter(x, Carried, page)
  {
    rows := [];
    for i := 0 to |page|
      invariant memo.Valid()
      invariant rows == Filter(x, Carried, page[..i])
    {
      FilterExtend(x, Carried, page, i);
      var ok := memo.CanRead(x.kind, page[i].resource, x.user);
      if ok {
        ok := memo.CanAccessWorkspace(x.user, page[i].workspace);
      }
      if ok {
        rows := rows + [page[i]];
      }
    }
    assert page[..|page|] == page;
  }

  // ---------------------------------------------------------------------------------------------
  // Scan a page, break at the row that fills it: logged models
  // ---------------------------------------------------------------------------------------------

  /** The page a logged-model search is meant to return; its workspace check always asks the store. */
  function LoggedModelPage(x: Context, raw: seq<Row>, start: nat, max: nat): (r: Page) {
    var first := Fetch(raw, start, max);
    var rows := Filter(x, Located, first.rows);
    if first.next.None? || |rows| >= max then Page(rows, first.next)
    else
      var (more, stop) := Scan(x, Located, raw, max - |rows|, first.next.value);
      Page(rows + more, if stop < |raw| then Some(stop) else None)
  }

  method FilterSearchLoggedModels(x: Context, raw: seq<Row>, start: nat, max: nat) returns (response: Page)
    requires max > 0
    ensures response == LoggedModelPage(x, raw, start, max)
  {
    var memo := new RequestMemo(x.policy);
    var first := Fetch(raw, start, max);
    var rows := FilterFirstPage(x, memo, first.rows);
    FilterKeepsOnlyPassing(x, Located, first.rows);
    var next := first.next;
    ghost var goal := LoggedModelPage(x, raw, start, max);
    while |rows| < max && next.Some?
      invariant memo.Valid() && memo.policy == x.policy
      invariant |rows| <= max
      invariant next.Some? ==> next.value < |raw|
      invariant next.None? || |rows| == max ==> Page(rows, next) == goal
      invariant next.Some? && |rows| < max ==>
                  var s := Scan(x, Located, raw, max - |rows|, next.value);
                  goal == Page(rows + s.0, if s.1 < |raw| then Some(s.1) else None)
      decreases if next.Some? then 1 + |raw| - next.value else 0
    {
      rows, next := ScanBatch(x, memo, raw, rows, next.value, max);
    }
    response := Page(rows, next);
  }

  /** One iteration of the refill loop: the inner for/else over a fetched batch. */
  method ScanBatch(x: Context, memo: RequestMemo, raw: seq<Row>, have: seq<Row>, offset: nat, max: nat)
    returns (rows: seq<Row>, next: Option<nat>)
    requires memo.Valid() && memo.policy == x.policy
    requires |have| < max && offset < |raw|
    modifies memo`entries
    ensures memo.Valid()
    ensures |have| <= |rows| <= max
    ensures next.Some? ==> offset < next.value < |raw|
    ensures var s := Scan(x, Located, raw, max - |have|, offset);
            if next.Some? && |rows| < max then
              var t := Scan(x, Located, raw, max - |rows|, next.value);
              s == (rows[|have|..] + t.0, t.1) && rows[..|have|] == have
            else rows == have + s.0 && next == if s.1 < |raw| then Some(s.1) else None
  {
    var fetched := Fetch(raw, offset, max);
    var batch := fetched.rows;
    var isLastPage := fetched.next.None?;
    var lastIndex := |batch| - 1;
    rows := have;
    var index := 0;
    ghost var all := Scan(x, Located, raw, max - |have|, offset);
    assert rows[|have|..] + all.0 == all.0;
    while index < |batch|
      invariant index <= |batch| && memo.Valid()
      invariant |have| <= |rows| < max && rows[..|have|] == have
      invariant var t := Scan(x, Located, raw, max - |rows|, offset + index);
                all == (rows[|have|..] + t.0, t.1)
    {
      var model := batch[index];
      assert model == raw[offset + index];
      var ok := memo.CanRead(x.kind, model.resource, x.user);
      if ok {
        ok := memo.CanAccessWorkspace(x.user, x.policy.locate(model.resource));
      }
      if ok {
        ghost var rest := Scan(x, Located, raw, max - |rows| - 1, offset + index + 1).0;
        assert rows[|have|..] + ([model] + rest) == (rows + [model])[|have|..] + rest;
        rows := rows + [model];
        if |rows| >= max {
          next := if isLastPage && index == lastIndex then None else Some(offset + index + 1);
          assert rows == have + rows[|have|..];
          return;
        }
      }
      index := index + 1;
    }
    next := if isLastPage then None else Some(offset + max);
    assert rows == have + rows[|have|..];
  }

  // ---------------------------------------------------------------------------------------------
  // The chain of requests
  // ---------------------------------------------------------------------------------------------

  datatype Search = ByOffset | LoggedModels

  function Respond(x: Context, search: Search, raw: seq<Row>, start: nat, max: nat): (r: Page) {
    match search
    case ByOffset => OffsetPage(x, raw, start, max)
    case LoggedModels => LoggedModelPage(x, raw, start, max)
  }

  /** Where a response leaves off: its rows are the readable ones of raw[start..Resume]. */
  lemma RespondCovers(x: Context, search: Search, raw: seq<Row>, start: nat, max: nat) returns (mid: nat, stop: nat)
    requires max > 0 && start <= |raw|
    ensures start <= mid <= stop <= |raw|
    ensures var page := Respond(x, search, raw, start, max);
            && page.rows == Filter(x, Located, raw[start..mid])
                            + Filter(x, if search.ByOffset? then Carried else Located, raw[mid..stop])
            && |page.rows| <= max
            && (page.next.Some? ==> page.next.value == stop && start < stop)
            && (page.next.None? ==> stop == |raw|)
    ensures start < |raw| ==> start < mid
    ensures mid < stop ==> exists j :: start <= j < mid && !x.Ok(Located, raw[j])
  {
    var first := Fetch(raw, start, max);
    mid := Min(start + max, |raw|);
    assert first.rows == raw[start..mid];
    FilterKeepsOnlyPassing(x, Located, first.rows);
    var rows := Filter(x, Located, first.rows);
    var c := if search.ByOffset? then Carried else Located;
    if first.next.None? || |rows| >= max {
      stop := mid;
      assert raw[mid..stop] == [];
      assert rows + [] == rows;
    } else {
      ScanCovers(x, c, raw, max - |rows|, mid);
      stop := Scan(x, c, raw, max - |rows|, mid).1;
      var j := ShortFilterHasAFailure(x, Located, first.rows);
      assert raw[start + j] == first.rows[j];
    }
  }

  lemma {:induction false} ShortFilterHasAFailure(x: Context, c: Check, rows: seq<Row>) returns (j: nat)
    requires |Filter(x, c, rows)| < |rows|
    ensures j < |rows| && !x.Ok(c, rows[j])
  {
    j := 0;
    if x.Ok(c, rows[0]) {
      j := ShortFilterHasAFailure(x, c, rows[1..]);
      j := j + 1;
    }
  }

  /** What a response shows, in terms of the permission services: of the stretch of the raw list it
      covers, exactly the rows the user may read in a workspace the user may read. The workspace is the
      one the store has for the resource, and for the rows an offset search refetches the one the row
      carries; without a workspace, or with workspaces switched off, only the first condition is left. */
  lemma PagesHoldExactlyTheVisibleRows(x: Context, search: Search, raw: seq<Row>, start: nat, max: nat)
    returns (mid: nat, stop: nat, first: seq<Row>, refetched: seq<Row>)
    requires max > 0 && start <= |raw|
    ensures start <= mid <= stop <= |raw|
    ensures var page := Respond(x, search, raw, start, max);
            page.rows == first + refetched && page.next == (if page.next.Some? then Some(stop) else None)
    ensures forall r :: r in first <==>
              && r in raw[start..mid] && x.policy.canRead(x.kind, r.resource, x.user)
              && var w := x.policy.locate(r.resource);
                 !x.policy.workspacesEnabled || w.None? || w.value == "" || x.policy.workspaceReadable(w.value, x.user)
    ensures forall r :: r in refetched <==>
              && r in raw[mid..stop] && x.policy.canRead(x.kind, r.resource, x.user)
              && var w := if search.ByOffset? then r.workspace else x.policy.locate(r.resource);
                 !x.policy.workspacesEnabled || w.None? || w.value == "" || x.policy.workspaceReadable(w.value, x.user)
  {
    mid, stop := RespondCovers(x, search, raw, start, max);
    var c := if search.ByOffset? then Carried else Located;
    first, refetched := Filter(x, Located, raw[start..mid]), Filter(x, c, raw[mid..stop]);
    FilterKeepsOnlyPassing(x, Located, raw[start..mid]);
    FilterKeepsOnlyPassing(x, c, raw[mid..stop]);
  }

  /** The pages a client receives by following `next_page_token` until there is none. */
  function Pages(x: Context, search: Search, raw: seq<Row>, start: nat, max: nat): (r: seq<seq<Row>>)
    requires max > 0
    decreases if start <= |raw| then 1 + |raw| - start else 0
  {
    var page := Respond(x, search, raw, start, max);
    if page.next.None? then [page.rows]
    else
      assert start < page.next.value <= |raw| by {
        if start <= |raw| { var _, _ := RespondCovers(x, search, raw, start, max); }
      }
      [page.rows] + Pages(x, search, raw, page.next.value, max)
  }

  function Concat(pages: seq<seq<Row>>): (r: seq<Row>) {
    if pages == [] then [] else pages[0] + Concat(pages[1..])
  }

  lemma ConcatCons(page: seq<Row>, rest: seq<seq<Row>>)
    ensures Concat([page] + rest) == page + Concat(rest)
    ensures Concat([page]) == page
  {
    assert ([page] + rest)[1..] == rest;
    assert [page][1..] == [];
    assert page + [] == page;
  }

  /** A request past the end of the list is answered with one empty, final page. */
  lemma PastTheEnd(x: Context, search: Search, raw: seq<Row>, start: nat, max: nat)
    requires max > 0 && start >= |raw|
    ensures Pages(x, search, raw, start, max) == [[]]
  {
    assert raw[|raw|..|raw|] == [];
  }

  /** Following the tokens from any offset delivers exactly the readable rows from there on, in
      order and each once, on pages that respect `max_results`. With offset tokens no row may be
      disputed after one that fails the first-page check. */
  lemma {:induction false} ChainDeliversTheReadableRows(x: Context, search: Search, raw: seq<Row>, start: nat, max: nat)
    requires max > 0 && start <= |raw|
    requires search.ByOffset? ==> x.SettledAfterAFailure(raw, start)
    ensures Concat(Pages(x, search, raw, start, max)) == Filter(x, Located, raw[start..])
    ensures forall page :: page in Pages(x, search, raw, start, max) ==> |page| <= max
    decreases |raw| - start
  {
    var page := Respond(x, search, raw, start, max);
    var stop := PageIsReadable(x, search, raw, start, max);
    if page.next.Some? {
      ChainDeliversTheReadableRows(x, search, raw, stop, max);
      ConcatCons(page.rows, Pages(x, search, raw, stop, max));
      FilterSplits(x, Located, raw, start, stop);
    } else {
      ConcatCons(page.rows, []);
      assert raw[start..stop] == raw[start..];
    }
  }

  lemma FilterSplits(x: Context, c: Check, raw: seq<Row>, start: nat, stop: nat)
    requires start <= stop <= |raw|
    ensures Filter(x, c, raw[start..]) == Filter(x, c, raw[start..stop]) + Filter(x, c, raw[stop..])
  {
    FilterAppend(x, c, raw[start..stop], raw[stop..]);
    assert raw[start..stop] + raw[stop..] == raw[start..];
  }

  lemma SlicesJoin(raw: seq<Row>, start: nat, mid: nat, stop: nat)
    requires start <= mid <= stop <= |raw|
    ensures raw[start..mid] + raw[mid..stop] == raw[start..stop]
  {
  }

  /** One page is the readable part of the stretch it covers: a page is refilled only after a failure,
      and from there on the two checks agree. */
  lemma PageIsReadable(x: Context, search: Search, raw: seq<Row>, start: nat, max: nat) returns (stop: nat)
    requires max > 0 && start <= |raw|
    requires search.ByOffset? ==> x.SettledAfterAFailure(raw, start)
    ensures start <= stop <= |raw|
    ensures var page := Respond(x, search, raw, start, max);
            && page.rows == Filter(x, Located, raw[start..stop])
            && |page.rows| <= max
            && (page.next.Some? ==> page.next.value == stop && start < stop)
            && (page.next.None? ==> stop == |raw|)
  {
    var mid;
    mid, stop := RespondCovers(x, search, raw, start, max);
    FilterAppend(x, Located, raw[start..mid], raw[mid..stop]);
    SlicesJoin(raw, start, mid, stop);
    if search.ByOffset? {
      forall k | 0 <= k < stop - mid ensures !x.Disputed(raw[mid..stop][k]) {
        var j :| start <= j < mid && !x.Ok(Located, raw[j]);
        assert raw[mid..stop][k] == raw[mid + k];
      }
      FilterSame(x, Located, Carried, raw[mid..stop]);
    }
  }

  /** With offset tokens the promise depends on the two workspace checks: the chains from an offset
      deliver the readable rows for every page size if and only if, from that offset on, no row is
      disputed after one that fails the first-page check. */
  lemma OffsetChainIsExactIffSettled(x: Context, raw: seq<Row>, start: nat)
    requires start <= |raw|
    ensures (forall max: nat :: max > 0 ==> Concat(Pages(x, ByOffset, raw, start, max)) == Filter(x, Located, raw[start..]))
            <==> x.SettledAfterAFailure(raw, start)
  {
    if x.SettledAfterAFailure(raw, start) {
      forall max: nat | max > 0
        ensures Concat(Pages(x, ByOffset, raw, start, max)) == Filter(x, Located, raw[start..])
      {
        ChainDeliversTheReadableRows(x, ByOffset, raw, start, max);
      }
    } else {
      var i, j :| start <= j < i < |raw| && x.Disputed(raw[i]) && !x.Ok(Located, raw[j]);
      var last := LastDisputed(x, raw, i);
      RefetchingADisputedRowShows(x, raw, start, j, last);
    }
  }

  lemma {:induction false} LastDisputed(x: Context, raw: seq<Row>, i: nat) returns (last: nat)
    requires i < |raw| && x.Disputed(raw[i])
    ensures i <= last < |raw| && x.Disputed(raw[last]) && forall k :: last < k < |raw| ==> !x.Disputed(raw[k])
    decreases |raw| - i
  {
    if later: nat :| i < later < |raw| && x.Disputed(raw[later]) {
      last := LastDisputed(x, raw, later);
    } else {
      last := i;
    }
  }

  /** A first page that ends just before the last disputed row and has a failure is refilled from that
      row, which the other check then judges: one row is missing or surplus. */
  lemma RefetchingADisputedRowShows(x: Context, raw: seq<Row>, start: nat, j: nat, i: nat)
    requires start <= j < i < |raw| && x.Disputed(raw[i]) && !x.Ok(Located, raw[j])
    requires forall k :: i < k < |raw| ==> !x.Disputed(raw[k])
    ensures Concat(Pages(x, ByOffset, raw, start, i - start)) != Filter(x, Located, raw[start..])
  {
    var max := i - start;
    var page := Respond(x, ByOffset, raw, start, max);
    var stop := RefillFromTheDispute(x, raw, start, j, i);
    ChainAfterTheDispute(x, raw, start, max, stop, page);
    FilterSplits(x, Located, raw, start, i);
    FilterSplits(x, Located, raw, i, stop);
    DisputedHeadChangesTheCount(x, raw, i, stop);
  }

  lemma RefillFromTheDispute(x: Context, raw: seq<Row>, start: nat, j: nat, i: nat) returns (stop: nat)
    requires start <= j < i < |raw| && !x.Ok(Located, raw[j])
    ensures i < stop <= |raw|
    ensures var page := Respond(x, ByOffset, raw, start, i - start);
            && page.rows == Filter(x, Located, raw[start..i]) + Filter(x, Carried, raw[i..stop])
            && (page.next == Some(stop) || (page.next == None && stop == |raw|))
  {
    var max := i - start;
    var first := Filter(x, Located, raw[start..i]);
    assert Fetch(raw, start, max) == Page(raw[start..i], Some(i));
    AFailureShortensTheFilter(x, Located, raw[start..i], j - start);
    ScanCovers(x, Carried, raw, max - |first|, i);
    stop := Scan(x, Carried, raw, max - |first|, i).1;
  }

  lemma {:induction false} AFailureShortensTheFilter(x: Context, c: Check, rows: seq<Row>, j: nat)
    requires j < |rows| && !x.Ok(c, rows[j])
    ensures |Filter(x, c, rows)| < |rows|
  {
    if j > 0 {
      AFailureShortensTheFilter(x, c, rows[1..], j - 1);
    } else {
      FilterKeepsOnlyPassing(x, c, rows[1..]);
    }
  }

  lemma ChainAfterTheDispute(x: Context, raw: seq<Row>, start: nat, max: nat, stop: nat, page: Page)
    requires max > 0 && start <= |raw| && stop <= |raw| && page == Respond(x, ByOffset, raw, start, max)
    requires page.next == Some(stop) || (page.next == None && stop == |raw|)
    requires forall k :: stop <= k < |raw| ==> !x.Disputed(raw[k])
    ensures Concat(Pages(x, ByOffset, raw, start, max)) == page.rows + Filter(x, Located, raw[stop..])
  {
    if page.next.Some? {
      ChainDeliversTheReadableRows(x, ByOffset, raw, stop, max);
      ConcatCons(page.rows, Pages(x, ByOffset, raw, stop, max));
    } else {
      ConcatCons(page.rows, []);
      assert raw[stop..] == [];
      assert page.rows + [] == page.rows;
    }
  }

  lemma DisputedHeadChangesTheCount(x: Context, raw: seq<Row>, i: nat, stop: nat)
    requires i < stop <= |raw| && x.Disputed(raw[i]) && forall k :: i < k < stop ==> !x.Disputed(raw[k])
    ensures |Filter(x, Located, raw[i..stop])| != |Filter(x, Carried, raw[i..stop])|
  {
    FilterOfSlice(x, Located, raw, i, stop);
    FilterOfSlice(x, Carried, raw, i, stop);
    FilterSame(x, Located, Carried, raw[i + 1..stop]);
  }

  /** The rows that pass the refetch check are a different target. The chains from every offset deliver
      those if and only if no row is disputed at all. */
  lemma OffsetChainMeetsTheRefetchCheckIffChecksAgree(x: Context, raw: seq<Row>)
    ensures (forall start: nat, max: nat :: start <= |raw| && max > 0 ==>
               Concat(Pages(x, ByOffset, raw, start, max)) == Filter(x, Carried, raw[start..]))
            <==> x.Agree(raw)
  {
    if x.Agree(raw) {
      forall start: nat, max: nat | start <= |raw| && max > 0
        ensures Concat(Pages(x, ByOffset, raw, start, max)) == Filter(x, Carried, raw[start..])
      {
        ChainDeliversTheReadableRows(x, ByOffset, raw, start, max);
        FilterSame(x, Located, Carried, raw[start..]);
      }
    } else {
      var i: nat :| i < |raw| && x.Disputed(raw[i]);
      var last := LastDisputed(x, raw, i);
      FirstPageOfADisputedRow(x, raw, last);
    }
  }

  /** A page that starts at the last disputed row and reaches the end judges it by the first-page check. */
  lemma FirstPageOfADisputedRow(x: Context, raw: seq<Row>, i: nat)
    requires i < |raw| && x.Disputed(raw[i]) && forall k :: i < k < |raw| ==> !x.Disputed(raw[k])
    ensures Concat(Pages(x, ByOffset, raw, i, |raw| - i)) != Filter(x, Carried, raw[i..])
  {
    var page := Respond(x, ByOffset, raw, i, |raw| - i);
    assert Fetch(raw, i, |raw| - i) == Page(raw[i..], None);
    assert page == Page(Filter(x, Located, raw[i..]), None);
    ConcatCons(page.rows, []);
    assert raw[i..|raw|] == raw[i..];
    DisputedHeadChangesTheCount(x, raw, i, |raw|);
  }

  // ---------------------------------------------------------------------------------------------
  // The two refills compared
  // ---------------------------------------------------------------------------------------------

  /** The two algorithms return the same rows and resume at the same place; they differ exactly when
      a refill takes its last row from the end of the list, where only the trimming one leaves a
      token, pointing past the last row. */
  lemma RefillsAgree(x: Context, raw: seq<Row>, start: nat, max: nat)
    requires max > 0 && x.SettledAfterAFailure(raw, start)
    ensures var trim := OffsetPage(x, raw, start, max);
            var scan := LoggedModelPage(x, raw, start, max);
            && trim.rows == scan.rows
            && (trim.next != scan.next <==> trim.next == Some(|raw|))
            && (trim.next != scan.next ==> scan.next == None && |trim.rows| == max)
  {
    var first := Fetch(raw, start, max);
    var rows := Filter(x, Located, first.rows);
    if first.next.Some? && |rows| < max {
      var j := ShortFilterHasAFailure(x, Located, first.rows);
      assert raw[start + j] == first.rows[j];
      ScanSame(x, raw, max - |rows|, first.next.value);
      ScanCovers(x, Carried, raw, max - |rows|, first.next.value);
    }
  }

  /** The condition is needed: the two algorithms return the same rows from an offset for every page
      size if and only if, from there on, no row is disputed after one that fails the first-page check. */
  lemma RefillsReturnTheSameRowsIffSettled(x: Context, raw: seq<Row>, start: nat)
    ensures (forall max: nat :: max > 0 ==> OffsetPage(x, raw, start, max).rows == LoggedModelPage(x, raw, start, max).rows)
            <==> x.SettledAfterAFailure(raw, start)
  {
    if x.SettledAfterAFailure(raw, start) {
      forall max: nat | max > 0 ensures OffsetPage(x, raw, start, max).rows == LoggedModelPage(x, raw, start, max).rows {
        RefillsAgree(x, raw, start, max);
      }
    } else {
      var i, j :| start <= j < i < |raw| && x.Disputed(raw[i]) && !x.Ok(Located, raw[j]);
      var last := LastDisputed(x, raw, i);
      RefillsDisagree(x, raw, start, j, last);
    }
  }

  lemma RefillsDisagree(x: Context, raw: seq<Row>, start: nat, j: nat, i: nat)
    requires start <= j < i < |raw| && x.Disputed(raw[i]) && !x.Ok(Located, raw[j])
    requires forall k :: i < k < |raw| ==> !x.Disputed(raw[k])
    ensures OffsetPage(x, raw, start, i - start).rows != LoggedModelPage(x, raw, start, i - start).rows
  {
    var first := Filter(x, Located, raw[start..i]);
    assert Fetch(raw, start, i - start) == Page(raw[start..i], Some(i));
    AFailureShortensTheFilter(x, Located, raw[start..i], j - start);
    var room := i - start - |first|;
    var trim, scan := Scan(x, Carried, raw, room, i).0, Scan(x, Located, raw, room, i).0;
    assert (first + trim)[|first|..] == trim && (first + scan)[|first|..] == scan;
    OneScanTakesTheDispute(x, raw, room, i, if x.Ok(Carried, raw[i]) then Carried else Located);
    OneScanTakesTheDispute(x, raw, room, i, if x.Ok(Carried, raw[i]) then Located else Carried);
  }

  /** A scan that starts at the last disputed row takes a row like it exactly when its check passes it. */
  lemma OneScanTakesTheDispute(x: Context, raw: seq<Row>, room: nat, i: nat, c: Check)
    requires room > 0 && i < |raw| && x.Disputed(raw[i]) && forall k :: i < k < |raw| ==> !x.Disputed(raw[k])
    ensures raw[i] in Scan(x, c, raw, room, i).0 <==> x.Ok(c, raw[i])
  {
    if !x.Ok(c, raw[i]) {
      ScanCovers(x, c, raw, room, i + 1);
      FilterKeepsOnlyPassing(x, c, raw[i + 1..Scan(x, c, raw, room, i + 1).1]);
    }
  }

  lemma {:induction false} ScanSame(x: Context, raw: seq<Row>, room: nat, offset: nat)
    requires offset <= |raw| && forall k :: offset <= k < |raw| ==> !x.Disputed(raw[k])
    ensures Scan(x, Carried, raw, room, offset) == Scan(x, Located, raw, room, offset)
    decreases |raw| - offset
  {
    if room > 0 && offset < |raw| {
      ScanSame(x, raw, if x.Ok(Carried, raw[offset]) then room - 1 else room, offset + 1);
    }
  }
}
