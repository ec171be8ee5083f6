/** The provider registry's loader (mlflow_oidc_auth/provider_registry.py). */
module ProviderRegistry {
  import opened Wrappers
  import opened Text
  import opened ProviderEntries

  // ---------------------------------------------------------------------------------------------
  // Eliminating repeated issuers
  // ---------------------------------------------------------------------------------------------

  datatype LoadError =
    | NotUsable | Unreadable | Unparsable | NotAList | FellBack
    | NotAnObject(index: nat)
    | IdUsedTwice(id: string)
    | Invalid(index: nat, reasons: seq<Reason>)
    | IssuerTaken(id: string, issuer: string, claimant: string)

  predicate Claims(p: Provider, issuer: string) { p.issuer == Some(issuer) && issuer != "" }

  predicate ClaimedIn(ps: seq<Provider>, p: Provider) {
    p.issuer.Some? && exists q :: q in ps && Claims(q, p.issuer.value)
  }

  function DistinctIssuers(ps: seq<Provider>): (r: seq<Provider>) {
    if ps == [] then []
    else
      var init := ps[..|ps| - 1];
      DistinctIssuers(init) + if ClaimedIn(init, ps[|ps| - 1]) then [] else [ps[|ps| - 1]]
  }

  /** An error names the provider together with a kept one that claims its issuer. */
  predicate LosesIn(p: Provider, kept: seq<Provider>, errors: seq<LoadError>) {
    p.issuer.Some? && exists q :: q in kept && Claims(q, p.issuer.value) && IssuerTaken(p.id, p.issuer.value, q.id) in errors
  }

  predicate BlamesOneOf(e: LoadError, ps: seq<Provider>) {
    e.IssuerTaken? && exists k :: 0 <= k < |ps| && ps[k].id == e.id && ClaimedIn(ps[..k], ps[k])
  }

  /** Every provider is kept or loses to a kept one. */
  ghost predicate Accounted(ps: seq<Provider>, kept: seq<Provider>, errors: seq<LoadError>) {
    forall p :: p in ps ==> p in kept || LosesIn(p, kept, errors)
  }

  ghost predicate AllBlame(errors: seq<LoadError>, ps: seq<Provider>) {
    forall e :: e in errors ==> BlamesOneOf(e, ps)
  }

  method RejectDuplicateIssuers(providers: seq<Provider>) returns (kept: seq<Provider>, errors: seq<LoadError>)
    ensures kept == DistinctIssuers(providers)
    ensures Accounted(providers, kept, errors)
    ensures AllBlame(errors, providers)
  {
    kept, errors := [], [];
    var seen: map<string, string> := map[];
    assert providers[..0] == [];
    for i := 0 to |providers|
      invariant kept == DistinctIssuers(providers[..i])
      invariant SeenTracks(seen, providers[..i], kept)
      invariant Accounted(providers[..i], kept, errors)
      invariant AllBlame(errors, providers)
    {
      var p := providers[i];
      ghost var earlier := providers[..i];
      assert providers[..i + 1] == earlier + [p];
      assert providers[..i + 1][..i] == earlier;
      if p.issuer.Some? && p.issuer.value != "" && p.issuer.value in seen {
        SeenIsClaimed(seen, earlier, kept, p);
        DropIsAccounted(earlier, kept, errors, p, seen[p.issuer.value]);
        DropIsFair(errors, providers, i, seen[p.issuer.value]);
        errors := errors + [IssuerTaken(p.id, p.issuer.value, seen[p.issuer.value])];
      } else {
        UnseenIsUnclaimed(seen, earlier, kept, p);
        KeepIsAccounted(earlier, kept, errors, p);
        if p.issuer.Some? && p.issuer.value != "" {
          seen := seen[p.issuer.value := p.id];
        }
        kept := kept + [p];
      }
    }
    assert providers[..|providers|] == providers;
  }

  lemma DropIsAccounted(ps: seq<Provider>, kept: seq<Provider>, errors: seq<LoadError>, p: Provider, claimant: string)
    requires Accounted(ps, kept, errors) && p.issuer.Some?
    requires exists q :: q in kept && q.id == claimant && Claims(q, p.issuer.value)
    ensures Accounted(ps + [p], kept, errors + [IssuerTaken(p.id, p.issuer.value, claimant)])
  {
    var after := errors + [IssuerTaken(p.id, p.issuer.value, claimant)];
    forall r | r in ps + [p] && r !in kept ensures LosesIn(r, kept, after) {
      if r == p {
        assert IssuerTaken(p.id, p.issuer.value, claimant) in after;
      } else {
        var q :| q in kept && Claims(q, r.issuer.value) && IssuerTaken(r.id, r.issuer.value, q.id) in errors;
        assert IssuerTaken(r.id, r.issuer.value, q.id) in after;
      }
    }
  }

  lemma DropIsFair(errors: seq<LoadError>, ps: seq<Provider>, k: nat, claimant: string)
    requires AllBlame(errors, ps) && k < |ps| && ClaimedIn(ps[..k], ps[k])
    ensures AllBlame(errors + [IssuerTaken(ps[k].id, ps[k].issuer.value, claimant)], ps)
  {
    assert BlamesOneOf(IssuerTaken(ps[k].id, ps[k].issuer.value, claimant), ps);
  }

  lemma KeepIsAccounted(ps: seq<Provider>, kept: seq<Provider>, errors: seq<LoadError>, p: Provider)
    requires Accounted(ps, kept, errors)
    ensures Accounted(ps + [p], kept + [p], errors)
  {
    forall r | r in ps + [p] && r !in kept + [p] ensures LosesIn(r, kept + [p], errors) {
      assert r in ps && r !in kept by {
        assert p in kept + [p];
        assert forall q :: q in kept ==> q in kept + [p];
      }
      var q :| q in kept && Claims(q, r.issuer.value) && IssuerTaken(r.id, r.issuer.value, q.id) in errors;
      assert q in kept + [p];
    }
  }

  /** The id recorded for an issuer is that of a kept provider claiming it; an issuer is recorded when
      some provider so far claims it. */
  ghost predicate SeenAt(seen: map<string, string>, ps: seq<Provider>, kept: seq<Provider>, s: string) {
    && (s in seen <==> exists q :: q in ps && Claims(q, s))
    && (s in seen ==> exists q :: q in kept && q.id == seen[s] && Claims(q, s))
  }

  ghost predicate SeenTracks(seen: map<string, string>, ps: seq<Provider>, kept: seq<Provider>) {
    forall s :: SeenAt(seen, ps, kept, s)
  }

  lemma SeenIsClaimed(seen: map<string, string>, ps: seq<Provider>, kept: seq<Provider>, p: Provider)
    requires SeenTracks(seen, ps, kept) && p.issuer.Some? && p.issuer.value in seen
    ensures ClaimedIn(ps, p)
    ensures exists q :: q in kept && q.id == seen[p.issuer.value] && Claims(q, p.issuer.value)
    ensures SeenTracks(seen, ps + [p], kept)
  {
    assert SeenAt(seen, ps, kept, p.issuer.value);
    forall s ensures SeenAt(seen, ps + [p], kept, s) {
      assert SeenAt(seen, ps, kept, s);
    }
  }

  lemma UnseenIsUnclaimed(seen: map<string, string>, ps: seq<Provider>, kept: seq<Provider>, p: Provider)
    requires SeenTracks(seen, ps, kept)
    requires !(p.issuer.Some? && p.issuer.value != "" && p.issuer.value in seen)
    ensures !ClaimedIn(ps, p)
    ensures SeenTracks(if p.issuer.Some? && p.issuer.value != "" then seen[p.issuer.value := p.id] else seen, ps + [p], kept + [p])
  {
    if p.issuer.Some? {
      assert SeenAt(seen, ps, kept, p.issuer.value);
    }
    var after := if p.issuer.Some? && p.issuer.value != "" then seen[p.issuer.value := p.id] else seen;
    forall s ensures SeenAt(after, ps + [p], kept + [p], s) {
      assert SeenAt(seen, ps, kept, s);
      if Claims(p, s) {
        assert p in kept + [p];
      } else if s in seen {
        var q :| q in kept && q.id == seen[s] && Claims(q, s);
        assert q in kept + [p];
      }
    }
  }

  predicate Increasing(at: seq<nat>, bound: nat) {
    && (forall k :: 0 <= k < |at| ==> at[k] < bound)
    && forall j, k :: 0 <= j < k < |at| ==> at[j] < at[k]
  }

  /** What is kept is a subsequence, and each of its members is the first to claim its issuer. */
  lemma {:induction false} KeptAreFirstClaimants(ps: seq<Provider>) returns (at: seq<nat>)
    ensures Increasing(at, |ps|) && |at| == |DistinctIssuers(ps)|
    ensures forall k :: 0 <= k < |at| ==> DistinctIssuers(ps)[k] == ps[at[k]] && !ClaimedIn(ps[..at[k]], ps[at[k]])
  {
    if ps == [] {
      at := [];
    } else {
      var init := ps[..|ps| - 1];
      at := KeptAreFirstClaimants(init);
      forall k | 0 <= k < |at| ensures ps[..at[k]] == init[..at[k]] && ps[at[k]] == init[at[k]] {
        PrefixOfAPrefix(ps, |ps| - 1, at[k]);
      }
      if !ClaimedIn(init, ps[|ps| - 1]) {
        at := at + [|ps| - 1];
      }
    }
  }

  lemma PrefixOfAPrefix(ps: seq<Provider>, n: nat, i: nat)
    requires i < n <= |ps|
    ensures ps[..n][..i] == ps[..i] && ps[..n][i] == ps[i]
  {
  }

  predicate HaveDistinctIssuers(ps: seq<Provider>) {
    forall j, k :: 0 <= j < k < |ps| && ps[j].issuer.Some? && ps[j].issuer == ps[k].issuer ==> ps[j].issuer.value == ""
  }

  lemma EliminationLeavesDistinctIssuers(ps: seq<Provider>)
    ensures HaveDistinctIssuers(DistinctIssuers(ps))
  {
    var at := KeptAreFirstClaimants(ps);
    var kept := DistinctIssuers(ps);
    forall j, k | 0 <= j < k < |kept| && kept[j].issuer.Some? && kept[j].issuer == kept[k].issuer
      ensures kept[j].issuer.value == ""
    {
      if kept[j].issuer.value != "" {
        assert ps[..at[k]][at[j]] == kept[j];
        assert Claims(kept[j], kept[k].issuer.value);
        assert ClaimedIn(ps[..at[k]], ps[at[k]]);
      }
    }
  }

  lemma {:induction false} DistinctIssuersAreKept(ps: seq<Provider>)
    requires HaveDistinctIssuers(ps)
    ensures DistinctIssuers(ps) == ps
  {
    if ps != [] {
      DistinctIssuersAreKept(ps[..|ps| - 1]);
    }
  }

  /** Eliminating twice eliminates nothing more. */
  lemma EliminationIsIdempotent(ps: seq<Provider>)
    ensures DistinctIssuers(DistinctIssuers(ps)) == DistinctIssuers(ps)
  {
    EliminationLeavesDistinctIssuers(ps);
    DistinctIssuersAreKept(DistinctIssuers(ps));
  }

  // ---------------------------------------------------------------------------------------------
  // The two passes over the entries
  // ---------------------------------------------------------------------------------------------

  predicate UsedOnce(v: Validator, entries: seq<Entry>, i: nat)
    requires i < |entries|
  {
    forall j :: 0 <= j < |entries| && j != i ==> v.idOf(entries[j]) != v.idOf(entries[i])
  }

  /** The entry has an id no other entry has, and validates on its own. */
  predicate Survives(v: Validator, entries: seq<Entry>, i: nat)
    requires i < |entries|
  {
    v.idOf(entries[i]).Some? && UsedOnce(v, entries, i) && v.check(entries[i], {}).Accepted?
  }

  function Survivors(v: Validator, entries: seq<Entry>, n: nat): (r: seq<Provider>)
    requires n <= |entries|
  {
    if n == 0 then []
    else Survivors(v, entries, n - 1) + if Survives(v, entries, n - 1) then [v.check(entries[n - 1], {}).provider] else []
  }

  function Loaded(v: Validator, entries: seq<Entry>): (r: seq<Provider>) {
    DistinctIssuers(Survivors(v, entries, |entries|))
  }

  predicate Kept(v: Validator, entries: seq<Entry>, i: nat)
    requires i < |entries|
  {
    Survives(v, entries, i) && v.check(entries[i], {}).provider in Loaded(v, entries)
  }

  /** An error line that accounts for an entry. */
  predicate Explains(v: Validator, err: LoadError, entries: seq<Entry>, i: nat)
    requires i < |entries|
  {
    match err
    case IdUsedTwice(id) => v.idOf(entries[i]) == Some(id)
    case Invalid(index, reasons) => index == i
    case IssuerTaken(id, _, _) => v.idOf(entries[i]) == Some(id)
    case _ => false
  }

  ghost predicate Explained(v: Validator, errors: seq<LoadError>, entries: seq<Entry>, i: nat)
    requires i < |entries|
  {
    exists err :: err in errors && Explains(v, err, entries, i)
  }

  lemma {:induction false} SurvivorsStem(v: Validator, entries: seq<Entry>, n: nat) returns (at: seq<nat>)
    requires n <= |entries|
    ensures Increasing(at, n) && |at| == |Survivors(v, entries, n)|
    ensures forall k :: 0 <= k < |at| ==>
              Survives(v, entries, at[k]) && Survivors(v, entries, n)[k] == v.check(entries[at[k]], {}).provider
  {
    if n == 0 {
      at := [];
    } else {
      at := SurvivorsStem(v, entries, n - 1);
      if Survives(v, entries, n - 1) {
        at := at + [n - 1];
      }
    }
  }

  lemma SurvivorIsListed(v: Validator, entries: seq<Entry>, n: nat, i: nat)
    requires i < n <= |entries| && Survives(v, entries, i)
    ensures v.check(entries[i], {}).provider in Survivors(v, entries, n)
  {
  }

  lemma SurvivorIdsDiffer(v: Validator, entries: seq<Entry>, j: nat, k: nat)
    requires Trustworthy(v)
    requires j < |Survivors(v, entries, |entries|)| && k < |Survivors(v, entries, |entries|)| && j != k
    ensures Survivors(v, entries, |entries|)[j].id != Survivors(v, entries, |entries|)[k].id
  {
    var at := SurvivorsStem(v, entries, |entries|);
    assert at[j] != at[k];
  }

  /** A survivor whose issuer an earlier survivor claims is not kept. */
  lemma ClaimedSurvivorsAreDropped(v: Validator, entries: seq<Entry>, k: nat)
    requires Trustworthy(v)
    requires k < |Survivors(v, entries, |entries|)|
    requires ClaimedIn(Survivors(v, entries, |entries|)[..k], Survivors(v, entries, |entries|)[k])
    ensures Survivors(v, entries, |entries|)[k] !in Loaded(v, entries)
  {
    var ps := Survivors(v, entries, |entries|);
    var at := KeptAreFirstClaimants(ps);
    forall j | 0 <= j < |at| ensures Loaded(v, entries)[j] != ps[k] {
      if at[j] != k {
        SurvivorIdsDiffer(v, entries, at[j], k);
      }
    }
  }

  /** How many of the first n entries have an id. */
  function Uses(v: Validator, entries: seq<Entry>, n: nat, id: string): (r: nat)
    requires n <= |entries|
  {
    if n == 0 then 0 else Uses(v, entries, n - 1, id) + if v.idOf(entries[n - 1]) == Some(id) then 1 else 0
  }

  predicate UsedBefore(v: Validator, entries: seq<Entry>, n: nat, id: string)
    requires n <= |entries|
  {
    exists i :: 0 <= i < n && v.idOf(entries[i]) == Some(id)
  }

  lemma {:induction false} UsedBeforeIsCounted(v: Validator, entries: seq<Entry>, n: nat, id: string)
    requires n <= |entries|
    ensures UsedBefore(v, entries, n, id) <==> Uses(v, entries, n, id) > 0
  {
    if n > 0 {
      UsedBeforeIsCounted(v, entries, n - 1, id);
      assert v.idOf(entries[n - 1]) == Some(id) ==> UsedBefore(v, entries, n, id);
    }
  }

  lemma {:induction false} UsedOnceIsCounted(v: Validator, entries: seq<Entry>, n: nat, i: nat)
    requires i < n <= |entries| && v.idOf(entries[i]).Some?
    ensures Uses(v, entries, n, v.idOf(entries[i]).value) > 1 <==> exists j :: 0 <= j < n && j != i && v.idOf(entries[j]) == v.idOf(entries[i])
  {
    var id := v.idOf(entries[i]).value;
    UsedBeforeIsCounted(v, entries, n - 1, id);
    if i < n - 1 {
      UsedOnceIsCounted(v, entries, n - 1, i);
    }
  }

  /** The count of an entry's id tells whether another entry has it. */
  ghost predicate TalliedAt(v: Validator, entries: seq<Entry>, counts: map<string, nat>, i: nat)
    requires i < |entries|
  {
    v.idOf(entries[i]).Some? ==>
      v.idOf(entries[i]).value in counts && (counts[v.idOf(entries[i]).value] > 1 <==> !UsedOnce(v, entries, i))
  }

  /** The first pass: how often each id is written. */
  method CountIds(v: Validator, entries: seq<Entry>) returns (counts: map<string, nat>)
    ensures forall i :: 0 <= i < |entries| ==> TalliedAt(v, entries, counts, i)
  {
    counts := map[];
    for n := 0 to |entries|
      invariant forall s :: (if s in counts then counts[s] else 0) == Uses(v, entries, n, s)
    {
      var id := v.idOf(entries[n]);
      if id.Some? {
        counts := counts[id.value := (if id.value in counts then counts[id.value] else 0) + 1];
      }
    }
    forall i | 0 <= i < |entries| && v.idOf(entries[i]).Some? ensures TalliedAt(v, entries, counts, i) {
      UsedBeforeIsCounted(v, entries, |entries|, v.idOf(entries[i]).value);
      UsedOnceIsCounted(v, entries, |entries|, i);
    }
  }

  /** The second pass. The validator is only ever called with a set its entry's id is not in, so it
      never reports a repeated id itself. */
  method ValidateEntries(v: Validator, entries: seq<Entry>) returns (survivors: seq<Provider>, errors: seq<LoadError>)
    requires Trustworthy(v)
    ensures survivors == Survivors(v, entries, |entries|)
    ensures forall i :: 0 <= i < |entries| ==> (Survives(v, entries, i) <==> !Explained(v, errors, entries, i))
    ensures forall err :: err in errors ==> err.IdUsedTwice? || (err.Invalid? && err.reasons != [] && RepeatedId !in err.reasons)
  {
    var counts := CountIds(v, entries);
    var seenIds: set<string> := {};
    survivors, errors := [], [];
    for n := 0 to |entries|
      invariant survivors == Survivors(v, entries, n)
      invariant PassedUpTo(v, entries, n, counts, seenIds, errors)
    {
      seenIds, survivors, errors := ValidateNext(v, entries, n, counts, seenIds, survivors, errors);
    }
    forall i | 0 <= i < |entries| && Survives(v, entries, i) ensures !Explained(v, errors, entries, i) {
      SurvivorsAreNotBlamed(v, errors, entries, i);
    }
    forall err | err in errors ensures err.IdUsedTwice? || (err.Invalid? && err.reasons != [] && RepeatedId !in err.reasons) {
      assert Fair(v, entries, err);
    }
  }

  /** What the second pass knows after n entries. */
  ghost predicate PassedUpTo(v: Validator, entries: seq<Entry>, n: nat, counts: map<string, nat>, seenIds: set<string>, errors: seq<LoadError>)
    requires n <= |entries|
  {
    && SeenBefore(v, entries, n, seenIds) && RepeatsReported(counts, seenIds, errors)
    && AccountedUpTo(v, entries, n, errors) && AllFair(v, entries, errors)
  }

  /** The loop body: one entry. */
  method ValidateNext(v: Validator, entries: seq<Entry>, n: nat, counts: map<string, nat>,
                      seenBefore: set<string>, survivorsBefore: seq<Provider>, errorsBefore: seq<LoadError>)
    returns (seenIds: set<string>, survivors: seq<Provider>, errors: seq<LoadError>)
    requires Trustworthy(v) && n < |entries|
    requires forall i :: 0 <= i < |entries| ==> TalliedAt(v, entries, counts, i)
    requires survivorsBefore == Survivors(v, entries, n)
    requires PassedUpTo(v, entries, n, counts, seenBefore, errorsBefore)
    ensures survivors == Survivors(v, entries, n + 1)
    ensures PassedUpTo(v, entries, n + 1, counts, seenIds, errors)
  {
    seenIds, survivors, errors := seenBefore, survivorsBefore, errorsBefore;
    var id := v.idOf(entries[n]);
    assert TalliedAt(v, entries, counts, n);
    if id.Some? && counts[id.value] > 1 {
      if id.value !in seenIds {
        RepeatsAreFair(v, entries, counts, id.value);
        ReportARepeat(v, entries, counts, seenIds, errors, id.value);
        errors := errors + [IdUsedTwice(id.value)];
        seenIds := seenIds + {id.value};
      }
      AccountForNext(v, entries, n, errorsBefore, errors, IdUsedTwice(id.value));
    } else {
      OwnIdsAreFresh(v, entries, n, seenIds);
      match v.check(entries[n], seenIds)
      case Rejected(reasons) =>
        errors := errors + [Invalid(n, reasons)];
        AccountForNext(v, entries, n, errorsBefore, errors, Invalid(n, reasons));
        ReportAnInvalid(v, entries, counts, seenIds, errorsBefore, Invalid(n, reasons));
      case Accepted(p) =>
        seenIds := seenIds + {p.id};
        survivors := survivors + [p];
    }
    assert SeenBefore(v, entries, n + 1, seenIds);
  }

  lemma ReportAnInvalid(v: Validator, entries: seq<Entry>, counts: map<string, nat>, seenIds: set<string>, errors: seq<LoadError>, err: LoadError)
    requires RepeatsReported(counts, seenIds, errors) && AllFair(v, entries, errors) && Fair(v, entries, err)
    ensures RepeatsReported(counts, seenIds, errors + [err]) && AllFair(v, entries, errors + [err])
  {
    assert errors <= errors + [err];
  }

  /** Every repeated id met so far has its error. */
  ghost predicate RepeatsReported(counts: map<string, nat>, seenIds: set<string>, errors: seq<LoadError>) {
    forall s :: s in seenIds && s in counts && counts[s] > 1 ==> IdUsedTwice(s) in errors
  }

  ghost predicate AllFair(v: Validator, entries: seq<Entry>, errors: seq<LoadError>) {
    forall err :: err in errors ==> Fair(v, entries, err)
  }

  lemma ReportARepeat(v: Validator, entries: seq<Entry>, counts: map<string, nat>, seenIds: set<string>, errors: seq<LoadError>, id: string)
    requires RepeatsReported(counts, seenIds, errors) && AllFair(v, entries, errors) && Fair(v, entries, IdUsedTwice(id))
    ensures RepeatsReported(counts, seenIds + {id}, errors + [IdUsedTwice(id)])
    ensures AllFair(v, entries, errors + [IdUsedTwice(id)])
  {
    assert IdUsedTwice(id) in errors + [IdUsedTwice(id)];
    assert errors <= errors + [IdUsedTwice(id)];
  }

  ghost predicate SeenBefore(v: Validator, entries: seq<Entry>, n: nat, seenIds: set<string>)
    requires n <= |entries|
  {
    forall s :: s in seenIds ==> exists i :: 0 <= i < n && v.idOf(entries[i]) == Some(s)
  }

  ghost predicate AccountedUpTo(v: Validator, entries: seq<Entry>, n: nat, errors: seq<LoadError>)
    requires n <= |entries|
  {
    forall i :: 0 <= i < n ==> Survives(v, entries, i) || Explained(v, errors, entries, i)
  }

  lemma RepeatsAreFair(v: Validator, entries: seq<Entry>, counts: map<string, nat>, id: string)
    requires id in counts && counts[id] > 1 && forall i :: 0 <= i < |entries| ==> TalliedAt(v, entries, counts, i)
    ensures Fair(v, entries, IdUsedTwice(id))
  {
    forall i | 0 <= i < |entries| && v.idOf(entries[i]) == Some(id) ensures !UsedOnce(v, entries, i) {
      assert TalliedAt(v, entries, counts, i);
    }
  }

  lemma OwnIdsAreFresh(v: Validator, entries: seq<Entry>, n: nat, seenIds: set<string>)
    requires n < |entries| && SeenBefore(v, entries, n, seenIds) && (v.idOf(entries[n]).Some? ==> UsedOnce(v, entries, n))
    ensures Fresh(v, entries[n], seenIds)
  {
  }

  lemma AccountForNext(v: Validator, entries: seq<Entry>, n: nat, before: seq<LoadError>, errors: seq<LoadError>, err: LoadError)
    requires n < |entries| && before <= errors && AccountedUpTo(v, entries, n, before)
    requires err in errors && Explains(v, err, entries, n)
    ensures AccountedUpTo(v, entries, n + 1, errors)
  {
    forall i | 0 <= i < n && Explained(v, before, entries, i) ensures Explained(v, errors, entries, i) {
      var e :| e in before && Explains(v, e, entries, i);
      assert e in errors;
    }
  }

  lemma SurvivorsAreNotBlamed(v: Validator, errors: seq<LoadError>, entries: seq<Entry>, i: nat)
    requires i < |entries| && Survives(v, entries, i)
    requires AllFair(v, entries, errors)
    ensures !Explained(v, errors, entries, i)
  {
    forall err | err in errors ensures !Explains(v, err, entries, i) {
      assert Fair(v, entries, err);
    }
  }

  /** An error of the second pass blames only entries that do not survive. */
  ghost predicate Fair(v: Validator, entries: seq<Entry>, err: LoadError) {
    match err
    case IdUsedTwice(id) => forall i :: 0 <= i < |entries| && v.idOf(entries[i]) == Some(id) ==> !UsedOnce(v, entries, i)
    case Invalid(index, reasons) =>
      reasons != [] && RepeatedId !in reasons && (index < |entries| ==> !Survives(v, entries, index))
    case _ => false
  }

  /** Every entry is either kept or accounted for by an error, and never both. */
  method LoadEntries(v: Validator, entries: seq<Entry>) returns (providers: seq<Provider>, errors: seq<LoadError>)
    requires Trustworthy(v)
    ensures providers == Loaded(v, entries)
    ensures forall i :: 0 <= i < |entries| ==> (Kept(v, entries, i) <==> !Explained(v, errors, entries, i))
    ensures forall err :: err in errors && err.Invalid? ==> err.reasons != [] && RepeatedId !in err.reasons
  {
    var survivors, entryErrors := ValidateEntries(v, entries);
    var issuerErrors;
    providers, issuerErrors := RejectDuplicateIssuers(survivors);
    errors := entryErrors + issuerErrors;
    forall i | 0 <= i < |entries|
      ensures Kept(v, entries, i) <==> !Explained(v, errors, entries, i)
    {
      if Survives(v, entries, i) {
        SurvivorIsListed(v, entries, |entries|, i);
        IssuerErrorsAccount(v, entries, issuerErrors, i);
        assert Explained(v, issuerErrors, entries, i) <==> Explained(v, errors, entries, i);
      } else {
        assert Explained(v, entryErrors, entries, i);
        var err :| err in entryErrors && Explains(v, err, entries, i);
        assert err in errors;
      }
    }
  }

  lemma IssuerErrorsAccount(v: Validator, entries: seq<Entry>, errors: seq<LoadError>, i: nat)
    requires Trustworthy(v)
    requires i < |entries| && Survives(v, entries, i)
    requires Accounted(Survivors(v, entries, |entries|), Loaded(v, entries), errors)
    requires AllBlame(errors, Survivors(v, entries, |entries|))
    ensures Kept(v, entries, i) <==> !Explained(v, errors, entries, i)
  {
    var ps := Survivors(v, entries, |entries|);
    var p := v.check(entries[i], {}).provider;
    SurvivorIsListed(v, entries, |entries|, i);
    var m :| 0 <= m < |ps| && ps[m] == p;
    if p !in DistinctIssuers(ps) {
      var q :| q in DistinctIssuers(ps) && p.issuer.Some? && IssuerTaken(p.id, p.issuer.value, q.id) in errors;
      assert Explains(v, IssuerTaken(p.id, p.issuer.value, q.id), entries, i);
    }
    if Explained(v, errors, entries, i) {
      var err :| err in errors && Explains(v, err, entries, i);
      var k :| 0 <= k < |ps| && ps[k].id == err.id && ClaimedIn(ps[..k], ps[k]);
      if k != m {
        SurvivorIdsDiffer(v, entries, k, m);
      }
      ClaimedSurvivorsAreDropped(v, entries, k);
    }
  }

  /** What every loaded registry guarantees the token router. */
  predicate Registered(ps: seq<Provider>) {
    && (forall k :: 0 <= k < |ps| ==> Sound(ps[k]))
    && (forall j, k :: 0 <= j < k < |ps| ==> ps[j].id != ps[k].id)
    && HaveDistinctIssuers(ps)
  }

  /** The kept providers are the verdicts on an increasing selection of the entries, all of them
      with an id of their own, and no two share an id or an issuer. */
  lemma LoadedIsRegistered(v: Validator, entries: seq<Entry>) returns (at: seq<nat>)
    requires Trustworthy(v)
    ensures Registered(Loaded(v, entries))
    ensures Increasing(at, |entries|) && |at| == |Loaded(v, entries)|
    ensures forall k :: 0 <= k < |at| ==>
              Survives(v, entries, at[k]) && Loaded(v, entries)[k] == v.check(entries[at[k]], {}).provider
  {
    var ps := Survivors(v, entries, |entries|);
    var stems := SurvivorsStem(v, entries, |entries|);
    var firsts := KeptAreFirstClaimants(ps);
    at := seq(|firsts|, k requires 0 <= k < |firsts| => stems[firsts[k]]);
    EliminationLeavesDistinctIssuers(ps);
    var loaded := Loaded(v, entries);
    forall k | 0 <= k < |loaded| ensures Sound(loaded[k]) {
    }
    forall j, k | 0 <= j < k < |loaded| ensures loaded[j].id != loaded[k].id {
      SurvivorIdsDiffer(v, entries, firsts[j], firsts[k]);
    }
  }

  /** An id written twice keeps no copy. */
  lemma RepeatedIdsKeepNothing(v: Validator, entries: seq<Entry>, i: nat, j: nat, p: Provider)
    requires Trustworthy(v)
    requires i < j < |entries| && v.idOf(entries[i]).Some? && v.idOf(entries[i]) == v.idOf(entries[j])
    requires p in Loaded(v, entries)
    ensures p.id != v.idOf(entries[i]).value
  {
    var at := LoadedIsRegistered(v, entries);
    var k :| 0 <= k < |at| && Loaded(v, entries)[k] == p;
  }

  // ---------------------------------------------------------------------------------------------
  // Choosing the source
  // ---------------------------------------------------------------------------------------------

  datatype Source = Legacy | FromVariable | FromFile

  /** The flat settings the legacy provider is made from. */
  datatype Flat = Flat(displayName: string, audience: Option<string>, issuer: Option<string>, discoveryUrl: Option<string>, clientId: Option<string>)

  predicate Present(j: Json) { !j.Null? && (j.Str? ==> Strip(j.s) != "") }

  function LegacyProvider(flat: Flat): (r: Provider) {
    Provider(
      DEFAULT_PROVIDER_ID, Oidc, if flat.displayName == "" then DEFAULT_PROVIDER_ID else flat.displayName,
      Jit, SyncEveryLogin, Authoritative, FromClaims, BySubject, true, [], ASYMMETRIC_ALGORITHMS,
      if flat.audience.Some? && Strip(flat.audience.value) != "" then Some(Strip(flat.audience.value)) else None,
      flat.issuer, flat.discoveryUrl, flat.clientId, None, None, None, false, [])
  }

  /** The list of providers a payload holds, if it holds one. */
  function Items(env: Environment, payload: Json): (r: Result<seq<Json>, LoadError>) {
    var parsed := if payload.Str? then env.parse(payload.s) else Some(payload);
    if parsed.None? then Err(Unparsable)
    else
      var listed := if parsed.value.Object? then GetOr(parsed.value.fields, "providers", parsed.value) else parsed.value;
      if listed.List? then Ok(listed.items) else Err(NotAList)
  }

  function Entries(items: seq<Json>): (r: seq<Entry>) {
    if items == [] then []
    else
      var last := items[|items| - 1];
      Entries(items[..|items| - 1]) + if last.Object? then [last.fields] else []
  }

  method ParseEntries(env: Environment, payload: Json) returns (entries: seq<Entry>, errors: seq<LoadError>)
    ensures match Items(env, payload)
            case Err(e) => entries == [] && errors == [e]
            case Ok(items) =>
              && entries == Entries(items)
              && (forall e :: e in errors <==> exists i :: 0 <= i < |items| && !items[i].Object? && e == NotAnObject(i))
              && |entries| + |errors| == |items|
  {
    match Items(env, payload) {
      case Err(e) => return [], [e];
      case Ok(items) =>
        entries, errors := [], [];
        assert items[..0] == [];
        for i := 0 to |items|
          invariant entries == Entries(items[..i])
          invariant forall e :: e in errors <==> exists k :: 0 <= k < i && !items[k].Object? && e == NotAnObject(k)
          invariant |entries| + |errors| == i
        {
          assert items[..i + 1][..i] == items[..i];
          if items[i].Object? {
            entries := entries + [items[i].fields];
          } else {
            errors := errors + [NotAnObject(i)];
          }
        }
        assert items[..|items|] == items;
    }
  }

  /** What the two settings lead to: a payload with its source, or the legacy provider with the
      errors that are reported beside it. */
  function Payload(env: Environment, inline: Json, path: Json): (r: Result<(Json, Source), seq<LoadError>>) {
    if Present(inline) then
      if inline.Str? || inline.List? || inline.Object? then Ok((inline, FromVariable)) else Err([NotUsable])
    else if TextOf(path).None? then Err([])
    else
      var content := env.readFile(TextOf(path).value);
      if content.None? then Err([Unreadable]) else Ok((Str(content.value), FromFile))
  }

  /** The settings in order: a variable that is a text not blank, a list or an object is the payload, and
      as anything else but null or blank text it is unusable; without it a path not blank names the
      file to read; without either nothing is configured. */
  lemma SettingsAreReadInOrder(env: Environment, inline: Json, path: Json)
    ensures var given := (inline.Str? && Strip(inline.s) != "") || inline.List? || inline.Object?;
            var unusable := inline.Bool? || inline.Number?;
            var named := path.Str? && Strip(path.s) != "";
            && (given ==> Payload(env, inline, path) == Ok((inline, FromVariable)))
            && (unusable ==> Payload(env, inline, path) == Err([NotUsable]))
            && (!given && !unusable && !named ==> Payload(env, inline, path) == Err([]))
            && (!given && !unusable && named && env.readFile(Strip(path.s)).None? ==> Payload(env, inline, path) == Err([Unreadable]))
            && (!given && !unusable && named && env.readFile(Strip(path.s)).Some? ==>
                  Payload(env, inline, path) == Ok((Str(env.readFile(Strip(path.s)).value), FromFile)))
  {
  }

  /** A payload's list is what it parses to, or what that object lists as its providers. */
  lemma ItemsAreListed(env: Environment, payload: Json, items: seq<Json>)
    ensures Items(env, payload) == Ok(items) <==>
              exists parsed :: && (if payload.Str? then env.parse(payload.s) == Some(parsed) else parsed == payload)
                               && (parsed == List(items)
                                   || (parsed.Object? && "providers" in parsed.fields && parsed.fields["providers"] == List(items)))
  {
    if Items(env, payload) == Ok(items) {
      var parsed := if payload.Str? then env.parse(payload.s).value else payload;
      assert if payload.Str? then env.parse(payload.s) == Some(parsed) else parsed == payload;
    }
  }

  /** The legacy provider is the default OIDC provider with the flat settings, open to every asymmetric
      algorithm; a blank audience is none. */
  lemma TheLegacyProviderIs(flat: Flat)
    ensures var p := LegacyProvider(flat);
            && p.id == "default" && p.ptype == Oidc && p.binding == BySubject && p.interactive
            && p.provisioning == Jit && p.groupSync == SyncEveryLogin && p.groupMode == Authoritative && p.adminSource == FromClaims
            && p.algorithms == ASYMMETRIC_ALGORITHMS && p.emailDomains == [] && p.namespaces == []
            && p.issuer == flat.issuer && p.discoveryUrl == flat.discoveryUrl && p.clientId == flat.clientId
            && (forall text :: text != "" ==> (p.audience == Some(text) <==> flat.audience.Some? && text == Strip(flat.audience.value)))
            && p.audience != Some("")
  {
  }

  /** A payload is abandoned for the legacy provider when it is not a list, or lists things none of
      which is an object. */
  predicate Abandoned(env: Environment, payload: Json) {
    var items := Items(env, payload);
    items.Err? || (items.value != [] && forall i :: 0 <= i < |items.value| ==> !items.value[i].Object?)
  }

  /** What the loader can return: a registered list, or the legacy provider alone. */
  ghost predicate IsLoaded(registry: seq<Provider>) {
    Registered(registry) || exists flat :: registry == [LegacyProvider(flat)]
  }

  method BuildProviderRegistry(env: Environment, inline: Json, path: Json, flat: Flat)
      returns (providers: seq<Provider>, errors: seq<LoadError>, source: Source)
    ensures IsLoaded(providers)
    ensures source.Legacy? ==> providers == [LegacyProvider(flat)]
    ensures source.Legacy? <==> Payload(env, inline, path).Err? || Abandoned(env, Payload(env, inline, path).value.0)
    ensures !source.Legacy? ==>
              && source == Payload(env, inline, path).value.1
              && providers == Loaded(ValidatorIn(env), Entries(Items(env, Payload(env, inline, path).value.0).value))
              && Registered(providers)
    ensures source.Legacy? && errors == [] ==> Payload(env, inline, path) == Err([])
    ensures !source.Legacy? ==>
              var items := Items(env, Payload(env, inline, path).value.0).value;
              && (forall i :: 0 <= i < |items| && !items[i].Object? ==> NotAnObject(i) in errors)
              && forall i :: 0 <= i < |Entries(items)| ==> (Kept(ValidatorIn(env), Entries(items), i) <==> !Explained(ValidatorIn(env), errors, Entries(items), i))
  {
    match Payload(env, inline, path) {
      case Err(reported) => return [LegacyProvider(flat)], reported, Legacy;
      case Ok((payload, origin)) =>
        var entries, structural := ParseEntries(env, payload);
        if Items(env, payload).Ok? {
          NoEntriesIffNoObjects(Items(env, payload).value);
        }
        if entries == [] && structural != [] {
          return [LegacyProvider(flat)], structural + [FellBack], Legacy;
        }
        var loadErrors;
        var v := ValidatorIn(env);
        ValidationIsTrustworthy(env);
        providers, loadErrors := LoadEntries(v, entries);
        errors, source := structural + loadErrors, origin;
        ghost var at := LoadedIsRegistered(v, entries);
        forall i | 0 <= i < |entries| ensures Explained(v, errors, entries, i) <==> Explained(v, loadErrors, entries, i) {
          if Explained(v, loadErrors, entries, i) {
            var err :| err in loadErrors && Explains(v, err, entries, i);
            assert err in errors;
          }
        }
    }
  }

  lemma {:induction false} NoEntriesIffNoObjects(items: seq<Json>)
    ensures Entries(items) == [] <==> forall i :: 0 <= i < |items| ==> !items[i].Object?
  {
    if items != [] {
      NoEntriesIffNoObjects(items[..|items| - 1]);
    }
  }
}
