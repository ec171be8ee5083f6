/** Which provider validates a bearer token, and what that provider then checks (mlflow_oidc_auth/auth.py). */
module TokenRouting {
  import opened Wrappers
  import opened ProviderEntries
  import opened ProviderRegistry

  /** A token as far as routing and validation read it. The claims are the same bytes whether they are
      read before or after the signature is checked. `timely` stands for the time-window checks. */
  datatype Token = Token(raw: string, algorithm: string, issuer: Option<string>, audiences: seq<string>, timely: bool)

  /** What a key set makes of a token: a key verifies its signature, a key refutes it, or no key of the
      set is the one the token names. */
  datatype KeyCheck = Verified | Refuted | NoKey

  /** The keys held for a provider, and the keys fetched anew. */
  datatype Keys = Keys(held: (Provider, Token) -> KeyCheck, fetched: (Provider, Token) -> KeyCheck)

  datatype AuthError =
    | NoProvider | NoIssuer | UnknownIssuer
    | NoUsableAlgorithm | UnsupportedAlgorithm | NoMatchingKey | BadSignature | InvalidClaims

  // ---------------------------------------------------------------------------------------------
  // Choosing the provider
  // ---------------------------------------------------------------------------------------------

  predicate ValidatesTokens(p: Provider) { p.ptype.Oidc? || p.ptype.K8s? }

  function TokenProviders(ps: seq<Provider>): (r: seq<Provider>) {
    if ps == [] then []
    else
      var last := ps[|ps| - 1];
      TokenProviders(ps[..|ps| - 1]) + if ValidatesTokens(last) then [last] else []
  }

  function FirstClaiming(ps: seq<Provider>, issuer: string): (r: Option<Provider>) {
    if ps == [] then None else if Claims(ps[0], issuer) then Some(ps[0]) else FirstClaiming(ps[1..], issuer)
  }

  /** The choice by unverified issuer alone. */
  function ByIssuer(ps: seq<Provider>, t: Token): (r: Result<Provider, AuthError>) {
    if t.issuer.None? || t.issuer.value == "" then Err(NoIssuer)
    else
      var found := FirstClaiming(ps, t.issuer.value);
      if found.None? then Err(UnknownIssuer) else Ok(found.value)
  }

  function Chosen(registry: seq<Provider>, t: Token): (r: Result<Provider, AuthError>) {
    var ps := TokenProviders(registry);
    if ps == [] then Err(NoProvider) else if |ps| == 1 then Ok(ps[0]) else ByIssuer(ps, t)
  }

  method ResolveProvider(registry: seq<Provider>, t: Token) returns (r: Result<Provider, AuthError>)
    ensures r == Chosen(registry, t)
    ensures r.Ok? ==> r.value in registry && ValidatesTokens(r.value)
    ensures r == Err(NoProvider) <==> forall p :: p in registry ==> !ValidatesTokens(p)
  {
    var ps: seq<Provider> := [];
    assert registry[..0] == [];
    for i := 0 to |registry|
      invariant ps == TokenProviders(registry[..i])
    {
      assert registry[..i + 1][..i] == registry[..i];
      if ValidatesTokens(registry[i]) {
        ps := ps + [registry[i]];
      }
    }
    assert registry[..|registry|] == registry;
    TokenProvidersAre(registry);
    if ps == [] {
      return Err(NoProvider);
    }
    assert ps[0] in registry;
    if |ps| == 1 {
      return Ok(ps[0]);
    }
    if t.issuer.None? || t.issuer.value == "" {
      return Err(NoIssuer);
    }
    for i := 0 to |ps|
      invariant FirstClaiming(ps, t.issuer.value) == FirstClaiming(ps[i..], t.issuer.value)
    {
      assert ps[i..][1..] == ps[i + 1..];
      if Claims(ps[i], t.issuer.value) {
        return Ok(ps[i]);
      }
    }
    return Err(UnknownIssuer);
  }

  // ---------------------------------------------------------------------------------------------
  // Validating under the chosen provider
  // ---------------------------------------------------------------------------------------------

  /** The decoder's algorithms: the provider's, within the deployment's ceiling. */
  function Usable(algorithms: seq<string>): (r: seq<string>) {
    if algorithms == [] then []
    else (if algorithms[0] in ASYMMETRIC_ALGORITHMS then [algorithms[0]] else []) + Usable(algorithms[1..])
  }

  /** Audience and issuer are constrained when the provider has them. */
  predicate ClaimsHold(p: Provider, t: Token) {
    && (p.audience.Some? && p.audience.value != "" ==> p.audience.value in t.audiences)
    && (p.issuer.Some? && p.issuer.value != "" ==> t.issuer == p.issuer)
    && t.timely
  }

  /** One decode under one set of keys: header algorithm, key, signature, claims, in that order. */
  function Decode(p: Provider, t: Token, check: (Provider, Token) -> KeyCheck): (r: Result<Token, AuthError>) {
    if t.algorithm !in Usable(p.algorithms) then Err(UnsupportedAlgorithm)
    else if check(p, t).NoKey? then Err(NoMatchingKey)
    else if check(p, t).Refuted? then Err(BadSignature)
    else if !ClaimsHold(p, t) then Err(InvalidClaims)
    else Ok(t)
  }

  /** A bad signature, and nothing else, refreshes this provider's keys and tries once more. */
  function DecodeWithRetry(p: Provider, t: Token, keys: Keys): (r: Result<Token, AuthError>) {
    var first := Decode(p, t, keys.held);
    if first == Err(BadSignature) then Decode(p, t, keys.fetched) else first
  }

  function ValidateToken(registry: seq<Provider>, t: Token, keys: Keys): (r: Result<Token, AuthError>) {
    match Chosen(registry, t)
    case Err(e) => Err(e)
    case Ok(p) => if Usable(p.algorithms) == [] then Err(NoUsableAlgorithm) else DecodeWithRetry(p, t, keys)
  }

  // ---------------------------------------------------------------------------------------------
  // What routing has to agree with: trying every provider in full
  // ---------------------------------------------------------------------------------------------

  /** The signature verifies under the keys held, or they refute it and the keys fetched anew verify it. */
  predicate Verifies(p: Provider, t: Token, keys: Keys) {
    keys.held(p, t).Verified? || (keys.held(p, t).Refuted? && keys.fetched(p, t).Verified?)
  }

  /** The provider's own full check, with nothing read from the token beforehand. */
  predicate Accepts(p: Provider, t: Token, keys: Keys) {
    && ValidatesTokens(p)
    && t.algorithm in p.algorithms && t.algorithm in ASYMMETRIC_ALGORITHMS
    && Verifies(p, t, keys)
    && ClaimsHold(p, t)
  }

  ghost predicate SomeProviderAccepts(registry: seq<Provider>, t: Token, keys: Keys) {
    exists p :: p in registry && Accepts(p, t, keys)
  }

  lemma {:induction false} TokenProvidersAre(registry: seq<Provider>)
    ensures forall p :: p in TokenProviders(registry) <==> p in registry && ValidatesTokens(p)
  {
    if registry != [] {
      TokenProvidersAre(registry[..|registry| - 1]);
      assert registry == registry[..|registry| - 1] + [registry[|registry| - 1]];
    }
  }

  lemma {:induction false} TokenProvidersAreNoMore(registry: seq<Provider>)
    ensures |TokenProviders(registry)| <= |registry|
  {
    if registry != [] {
      TokenProvidersAreNoMore(registry[..|registry| - 1]);
    }
  }

  lemma {:induction false} UsableAre(algorithms: seq<string>)
    ensures forall a :: a in Usable(algorithms) <==> a in algorithms && a in ASYMMETRIC_ALGORITHMS
  {
    if algorithms != [] {
      UsableAre(algorithms[1..]);
      assert algorithms == [algorithms[0]] + algorithms[1..];
    }
  }

  lemma DecodingIsAccepting(p: Provider, t: Token, keys: Keys)
    requires ValidatesTokens(p)
    ensures DecodeWithRetry(p, t, keys).Ok? <==> Accepts(p, t, keys)
  {
    UsableAre(p.algorithms);
  }

  lemma {:induction false} FirstClaimingFinds(ps: seq<Provider>, issuer: string)
    ensures var r := FirstClaiming(ps, issuer);
            if r.Some? then r.value in ps && Claims(r.value, issuer) else forall p :: p in ps ==> !Claims(p, issuer)
  {
    if ps != [] {
      FirstClaimingFinds(ps[1..], issuer);
      assert ps == [ps[0]] + ps[1..];
    }
  }

  /** In a registered registry one issuer has one claimant. */
  lemma OneClaimant(registry: seq<Provider>, p: Provider, q: Provider, issuer: string)
    requires Registered(registry) && p in registry && q in registry
    requires Claims(p, issuer) && Claims(q, issuer)
    ensures p == q
  {
    var i :| 0 <= i < |registry| && registry[i] == p;
    var j :| 0 <= j < |registry| && registry[j] == q;
  }

  /** A token is accepted by at most one provider. */
  lemma TheAccepterIsUnique(registry: seq<Provider>, t: Token, keys: Keys, p: Provider, q: Provider)
    requires Registered(registry) && p in registry && q in registry
    requires Accepts(p, t, keys) && Accepts(q, t, keys)
    ensures p == q
  {
    RegisteredAreSound(registry, p);
    RegisteredAreSound(registry, q);
    OneClaimant(registry, p, q, t.issuer.value);
  }

  lemma RegisteredAreSound(registry: seq<Provider>, p: Provider)
    requires Registered(registry) && p in registry
    ensures Sound(p)
  {
  }

  /** Which provider a token is routed to: the one token provider there is, or the one whose issuer the
      token claims. The failures are told apart: no token provider, no issuer to choose by, and an
      issuer nobody claims. */
  lemma RoutedExactlyTo(registry: seq<Provider>, t: Token, p: Provider)
    requires Registered(registry) && p in registry && (p.ptype == Oidc || p.ptype == K8s)
    ensures var alone := forall q :: q in registry && (q.ptype == Oidc || q.ptype == K8s) ==> q == p;
            var claims := exists issuer :: issuer != "" && t.issuer == Some(issuer);
            && (Chosen(registry, t) == Ok(p) <==> alone || (claims && p.issuer == t.issuer))
            && (Chosen(registry, t) == Err(NoIssuer) <==> !alone && !claims)
            && (Chosen(registry, t) == Err(UnknownIssuer) <==>
                  && !alone && claims
                  && forall q :: q in registry && (q.ptype == Oidc || q.ptype == K8s) ==> q.issuer != t.issuer)
  {
    var ps := TokenProviders(registry);
    TokenProvidersAre(registry);
    assert p in ps;
    OneTokenProviderIff(registry, p);
    if |ps| > 1 && t.issuer.Some? && t.issuer.value != "" {
      FirstClaimingFinds(ps, t.issuer.value);
      if Claims(p, t.issuer.value) {
        OneClaimant(registry, FirstClaiming(ps, t.issuer.value).value, p, t.issuer.value);
      }
    }
  }

  lemma OneTokenProviderIff(registry: seq<Provider>, p: Provider)
    requires Registered(registry) && p in TokenProviders(registry)
    ensures |TokenProviders(registry)| == 1 <==> forall q :: q in TokenProviders(registry) ==> q == p
  {
    var ps := TokenProviders(registry);
    if |ps| > 1 && forall q :: q in ps ==> q == p {
      assert ps[0] in ps && ps[1] in ps;
      assert multiset(ps)[p] >= 2 by {
        assert ps == [ps[0], ps[1]] + ps[2..];
      }
      TokenProvidersCounted(registry, p);
      OneCopyEach(registry, p);
    }
  }

  lemma {:induction false} OneCopyEach(registry: seq<Provider>, p: Provider)
    requires forall j, k :: 0 <= j < k < |registry| ==> registry[j].id != registry[k].id
    ensures multiset(registry)[p] <= 1
  {
    if registry != [] {
      var init, last := registry[..|registry| - 1], registry[|registry| - 1];
      OneCopyEach(init, p);
      assert registry == init + [last];
      if last == p {
        assert p !in init;
        assert p !in multiset(init);
      }
    }
  }

  /** Routing by the unverified issuer accepts exactly what some provider accepts in full. */
  lemma RoutingRefinesTryingEveryProvider(registry: seq<Provider>, t: Token, keys: Keys)
    requires IsLoaded(registry)
    ensures ValidateToken(registry, t, keys).Ok? <==> SomeProviderAccepts(registry, t, keys)
    ensures ValidateToken(registry, t, keys) != Err(NoUsableAlgorithm)
  {
    var ps := TokenProviders(registry);
    TokenProvidersAre(registry);
    NoProviderIsWithoutAlgorithms(registry);
    if Chosen(registry, t).Ok? {
      var p := Chosen(registry, t).value;
      if |ps| > 1 {
        FirstClaimingFinds(ps, t.issuer.value);
      }
      DecodingIsAccepting(p, t, keys);
    }
    if SomeProviderAccepts(registry, t, keys) {
      var q :| q in registry && Accepts(q, t, keys);
      assert q in ps;
      AcceptedTokensReachTheirProvider(registry, t, keys, q);
    }
  }

  lemma AcceptedTokensReachTheirProvider(registry: seq<Provider>, t: Token, keys: Keys, q: Provider)
    requires IsLoaded(registry) && q in registry && Accepts(q, t, keys)
    ensures Chosen(registry, t) == Ok(q)
  {
    var ps := TokenProviders(registry);
    TokenProvidersAre(registry);
    assert q in ps;
    TokenProvidersAreNoMore(registry);
    if |ps| > 1 {
      RegisteredAreSound(registry, q);
      FirstClaimingFinds(ps, t.issuer.value);
      OneClaimant(registry, FirstClaiming(ps, t.issuer.value).value, q, t.issuer.value);
    }
  }

  lemma NoProviderIsWithoutAlgorithms(registry: seq<Provider>)
    requires IsLoaded(registry)
    ensures forall p :: p in registry ==> Usable(p.algorithms) != []
  {
    forall p | p in registry ensures Usable(p.algorithms) != [] {
      UsableAre(p.algorithms);
      if Registered(registry) {
        RegisteredAreSound(registry, p);
        assert p.algorithms[0] in ASYMMETRIC_ALGORITHMS;
      } else {
        assert ASYMMETRIC_ALGORITHMS[0] in p.algorithms;
      }
      assert exists a :: a in Usable(p.algorithms);
    }
  }

  /** Acceptance in full: a provider that validates tokens lists the token's algorithm, which is within
      the ceiling; the signature verifies under its keys, or under fresh ones after the held ones refute
      it; its audience, if it has one, is among the token's; its issuer, if it has one, is the token's;
      and the token's time window holds. */
  lemma AcceptedIffSomeProviderVouches(registry: seq<Provider>, t: Token, keys: Keys)
    requires IsLoaded(registry)
    ensures ValidateToken(registry, t, keys).Ok? <==>
              exists p :: && p in registry && (p.ptype == Oidc || p.ptype == K8s)
                          && t.algorithm in p.algorithms && t.algorithm in ASYMMETRIC_ALGORITHMS
                          && (keys.held(p, t) == Verified || (keys.held(p, t) == Refuted && keys.fetched(p, t) == Verified))
                          && (p.audience.None? || p.audience.value == "" || p.audience.value in t.audiences)
                          && (p.issuer.None? || p.issuer.value == "" || t.issuer == Some(p.issuer.value))
                          && t.timely
    ensures ValidateToken(registry, t, keys).Ok? ==> ValidateToken(registry, t, keys).value == t
  {
    RoutingRefinesTryingEveryProvider(registry, t, keys);
  }

  /** What acceptance pins under a configured registry: an asymmetric algorithm the provider lists, the
      provider's own issuer and its audience, a verified signature and the time window. */
  lemma AcceptedTokensArePinned(registry: seq<Provider>, t: Token, keys: Keys)
    requires Registered(registry) && ValidateToken(registry, t, keys).Ok?
    ensures exists p :: p in registry && t.issuer == p.issuer && p.issuer.Some? && p.issuer.value != ""
                        && p.audience.Some? && p.audience.value in t.audiences
                        && t.algorithm in p.algorithms && t.algorithm in ASYMMETRIC_ALGORITHMS
                        && (keys.held(p, t) == Verified || (keys.held(p, t) == Refuted && keys.fetched(p, t) == Verified))
    ensures t.timely && t.algorithm !in HMAC_ALGORITHMS && t.algorithm != "none" && t.algorithm != ""
  {
    RoutingRefinesTryingEveryProvider(registry, t, keys);
    var p :| p in registry && Accepts(p, t, keys);
    RegisteredAreSound(registry, p);
    TheCeilingIsAsymmetric(t.algorithm);
  }

  lemma TheCeilingIsAsymmetric(algorithm: string)
    requires algorithm in ASYMMETRIC_ALGORITHMS
    ensures algorithm !in HMAC_ALGORITHMS && algorithm != "none" && algorithm != ""
  {
    assert algorithm[0] != 'H' && algorithm[0] != 'n';
  }

  /** A token signed with a key that only a fresh fetch knows is accepted exactly when the keys held
      refute it: a token that names a key they do not have is refused without a fetch. */
  lemma RotatedKeysArePickedUpIffRefuted(registry: seq<Provider>, t: Token, keys: Keys, p: Provider)
    requires IsLoaded(registry) && p in registry && ValidatesTokens(p) && Chosen(registry, t) == Ok(p)
    requires t.algorithm in p.algorithms && t.algorithm in ASYMMETRIC_ALGORITHMS && ClaimsHold(p, t)
    requires !keys.held(p, t).Verified? && keys.fetched(p, t).Verified?
    ensures ValidateToken(registry, t, keys).Ok? <==> keys.held(p, t).Refuted?
    ensures ValidateToken(registry, t, keys) == Err(NoMatchingKey) <==> keys.held(p, t).NoKey?
  {
    UsableAre(p.algorithms);
    NoProviderIsWithoutAlgorithms(registry);
  }

  // ---------------------------------------------------------------------------------------------
  // Order and shortcut
  // ---------------------------------------------------------------------------------------------

  lemma {:induction false} TokenProvidersCounted(registry: seq<Provider>, p: Provider)
    ensures multiset(TokenProviders(registry))[p] == if ValidatesTokens(p) then multiset(registry)[p] else 0
  {
    if registry != [] {
      TokenProvidersCounted(registry[..|registry| - 1], p);
      assert registry == registry[..|registry| - 1] + [registry[|registry| - 1]];
    }
  }

  lemma TokenProvidersReordered(registry: seq<Provider>, reordered: seq<Provider>)
    requires multiset(registry) == multiset(reordered)
    ensures |TokenProviders(registry)| == |TokenProviders(reordered)|
    ensures forall p :: p in TokenProviders(registry) <==> p in TokenProviders(reordered)
  {
    var ps, qs := TokenProviders(registry), TokenProviders(reordered);
    forall p ensures multiset(ps)[p] == multiset(qs)[p] {
      TokenProvidersCounted(registry, p);
      TokenProvidersCounted(reordered, p);
    }
    assert multiset(ps) == multiset(qs);
    assert |ps| == |multiset(ps)| == |multiset(qs)| == |qs|;
    forall p ensures p in ps <==> p in qs {
      assert p in ps <==> p in multiset(ps);
      assert p in qs <==> p in multiset(qs);
    }
  }

  /** Reordering the registry changes neither the provider chosen nor the outcome. */
  lemma OrderDoesNotMatter(registry: seq<Provider>, reordered: seq<Provider>, t: Token, keys: Keys)
    requires Registered(registry) && multiset(registry) == multiset(reordered)
    ensures Chosen(reordered, t) == Chosen(registry, t)
    ensures ValidateToken(reordered, t, keys) == ValidateToken(registry, t, keys)
  {
    var ps, qs := TokenProviders(registry), TokenProviders(reordered);
    TokenProvidersReordered(registry, reordered);
    if |ps| == 1 {
      assert qs[0] in ps;
    } else if |ps| > 1 && t.issuer.Some? && t.issuer.value != "" {
      TokenProvidersAre(registry);
      FirstClaimingFinds(ps, t.issuer.value);
      FirstClaimingFinds(qs, t.issuer.value);
      var a, b := FirstClaiming(ps, t.issuer.value), FirstClaiming(qs, t.issuer.value);
      if a.Some? && b.Some? {
        OneClaimant(registry, a.value, b.value, t.issuer.value);
      }
    }
  }

  /** With one provider the issuer is not consulted. Consulting it would accept the same tokens exactly
      when the provider has an issuer; only the legacy provider can lack one. */
  lemma TheShortcutAgreesWhenAnIssuerIsSet(p: Provider, t: Token, keys: Keys)
    requires ValidatesTokens(p)
    ensures (ByIssuer([p], t) == Ok(p) && DecodeWithRetry(p, t, keys).Ok?)
            <==> ValidateToken([p], t, keys).Ok? && p.issuer.Some? && p.issuer.value != ""
  {
    assert TokenProviders([p]) == [p] by {
      assert [p][..0] == [];
    }
    UsableAre(p.algorithms);
    assert FirstClaiming([p][1..], "") == None;
    if t.issuer.Some? {
      FirstClaimingFinds([p], t.issuer.value);
    }
    DecodingIsAccepting(p, t, keys);
  }
}
