/**
 The rules a registry entry has to meet and the provider it becomes, read off the entry's own fields
 (mlflow_oidc_auth/provider_registry.py).
 */
module EntryRules {
  import opened Wrappers
  import opened Text
  import opened ProviderEntries
  import ServiceAccounts

  /** The field is there and is this text. */
  predicate Says(e: Entry, key: string, value: string) { key in e && e[key] == Str(value) }

  /** The field is left out, or is one of these texts. */
  predicate SaysOneOf(e: Entry, key: string, values: seq<string>) { key in e ==> e[key].Str? && e[key].s in values }

  /** The field is a text that is not blank; `text` is what is left of it without the blanks around it. */
  predicate SaysText(e: Entry, key: string, text: string) { key in e && e[key].Str? && text == Strip(e[key].s) && text != "" }

  ghost predicate HasText(e: Entry, key: string) { exists text :: SaysText(e, key, text) }

  /** The field is there and is not null, false, zero or empty. */
  predicate IsSet(e: Entry, key: string) {
    key in e && e[key] !in {Null, Bool(false), Number(0), Str(""), List([]), Object(map[])}
  }

  /** The field is this name or lists it, blanks around it aside; what is not a text lists nothing. */
  ghost predicate Lists(e: Entry, key: string, name: string) {
    && key in e && name != ""
    && ((e[key].Str? && name == Strip(e[key].s))
        || (e[key].List? && exists i :: 0 <= i < |e[key].items| && e[key].items[i].Str? && name == Strip(e[key].items[i].s)))
  }

  predicate IsOidc(e: Entry) { "type" !in e || Says(e, "type", "oidc") }

  /** Text fields hold texts, and list fields texts or lists; null is taken for absent here. */
  ghost predicate WellTyped(e: Entry) {
    && (forall k :: k in STRING_FIELDS && k in e ==> e[k].Null? || e[k].Str?)
    && (forall k :: k in LIST_FIELDS && k in e ==> e[k].Null? || e[k].Str? || e[k].List?)
  }

  predicate InVocabulary(e: Entry) {
    && SaysOneOf(e, "type", ["oidc", "saml", "k8s"])
    && SaysOneOf(e, "provisioning", ["jit", "scim", "none"])
    && SaysOneOf(e, "group_sync", ["none", "first_login", "every_login"])
    && SaysOneOf(e, "group_sync_mode", ["additive", "authoritative"])
    && SaysOneOf(e, "admin_source", ["claims", "none"])
    && SaysOneOf(e, "identity_binding", ["subject", "email"])
  }

  ghost predicate WellCombined(e: Entry) {
    && ("interactive" in e ==> e["interactive"].Bool? && !(e["interactive"].b && Says(e, "type", "k8s")))
    && (Says(e, "identity_binding", "email") ==> exists domain :: Lists(e, "allowed_email_domains", domain))
  }

  /** Algorithms are left out, or are a non-empty list of texts that are names of the asymmetric set,
      letter case aside. */
  ghost predicate AlgorithmsAreAsymmetric(e: Entry) {
    "allowed_algorithms" in e && e["allowed_algorithms"] != Null ==>
      && (e["allowed_algorithms"].List? ==> forall i :: 0 <= i < |e["allowed_algorithms"].items| ==> e["allowed_algorithms"].items[i].Str?)
      && (exists name :: Lists(e, "allowed_algorithms", name))
      && (forall name :: Lists(e, "allowed_algorithms", name) ==> SpellsAnAsymmetricOne(name))
  }

  ghost predicate SpellsAnAsymmetricOne(name: string) { exists a :: a in ASYMMETRIC_ALGORITHMS && Upper(a) == Upper(name) }

  ghost predicate NamesItsSource(env: Environment, e: Entry) {
    && (Says(e, "type", "saml") ==> env.samlInstalled)
    && (!Says(e, "type", "saml") ==> HasText(e, "issuer"))
    && (IsOidc(e) ==> HasText(e, "discovery_url")
                      && forall k :: k in ["jwks_inline", "jwks_uri", "in_cluster", "ca_bundle_path", "namespace_allowlist"] ==> !IsSet(e, k))
    && (Says(e, "type", "k8s") ==>
          && (IsSet(e, "discovery_url") || IsSet(e, "jwks_inline") || IsSet(e, "jwks_uri") || IsSet(e, "in_cluster"))
          && (IsSet(e, "jwks_inline") ==> env.readableKeys(e["jwks_inline"]))
          && (exists n :: Lists(e, "namespace_allowlist", n))
          && (forall n :: Lists(e, "namespace_allowlist", n) ==> ServiceAccounts.ValidDnsLabel(n)))
  }

  ghost predicate FollowsTheRules(env: Environment, e: Entry) {
    && HasText(e, "id") && WellTyped(e) && InVocabulary(e) && WellCombined(e)
    && AlgorithmsAreAsymmetric(e) && HasText(e, "audience") && NamesItsSource(env, e)
  }

  /** An entry with an id not seen yet is accepted exactly when it follows every rule. */
  lemma AcceptedIffItFollowsTheRules(env: Environment, e: Entry, seenIds: set<string>)
    requires forall text :: SaysText(e, "id", text) ==> text !in seenIds
    ensures Validate(env, e, seenIds).Accepted? <==> FollowsTheRules(env, e)
  {
    TextIsThere(e, "id");
    TypeErrorsAre(e);
    if TypeErrors(e) == [] {
      PolicyErrorsAre(e);
      if InVocabulary(e) {
        SourceErrorsAre(env, e);
      }
    }
  }

  ghost predicate Carries(e: Entry, key: string, value: Option<string>) {
    forall text :: text != "" ==> (value == Some(text) <==> SaysText(e, key, text))
  }

  ghost predicate CarriesTexts(e: Entry, p: Provider) {
    && SaysText(e, "id", p.id)
    && p.audience.Some? && SaysText(e, "audience", p.audience.value)
    && Carries(e, "issuer", p.issuer) && Carries(e, "discovery_url", p.discoveryUrl) && Carries(e, "client_id", p.clientId)
    && Carries(e, "jwks_uri", p.jwksUri) && Carries(e, "ca_bundle_path", p.caBundle)
    && (p.inCluster <==> IsSet(e, "in_cluster"))
  }

  ghost predicate CarriesLists(e: Entry, p: Provider) {
    && (forall d :: d in p.emailDomains <==> Lists(e, "allowed_email_domains", d))
    && (forall n :: n in p.namespaces <==> Lists(e, "namespace_allowlist", n))
  }

  predicate CarriesWords(e: Entry, p: Provider) {
    && (p.ptype == Oidc <==> IsOidc(e)) && (p.ptype == Saml <==> Says(e, "type", "saml"))
    && (p.provisioning == Jit <==> "provisioning" !in e || Says(e, "provisioning", "jit"))
    && (p.provisioning == Scim <==> Says(e, "provisioning", "scim"))
    && (p.groupSync == SyncEveryLogin <==> "group_sync" !in e || Says(e, "group_sync", "every_login"))
    && (p.groupSync == SyncFirstLogin <==> Says(e, "group_sync", "first_login"))
    && (p.groupMode == Additive <==> Says(e, "group_sync_mode", "additive"))
    && (p.binding == ByEmail <==> Says(e, "identity_binding", "email"))
    && (p.adminSource == FromClaims <==> Says(e, "admin_source", "claims") || ("admin_source" !in e && p.id == "default"))
    && (p.interactive <==> if "interactive" in e then e["interactive"] == Bool(true) else p.ptype != K8s)
  }

  /** What the accepted provider carries: every text stripped, every list as written, every word of the
      vocabulary as what it names, and the documented defaults for what is left out. */
  lemma AcceptedProvidersCarryTheEntry(env: Environment, e: Entry, seenIds: set<string>)
    requires Validate(env, e, seenIds).Accepted?
    ensures var p := Validate(env, e, seenIds).provider; CarriesTexts(e, p) && CarriesLists(e, p) && CarriesWords(e, p)
  {
    var p := Validate(env, e, seenIds).provider;
    assert p == Configured(env, e, EntryId(e).value);
    TextsAreCarried(env, e, EntryId(e).value);
    ListsAreCarried(env, e, EntryId(e).value);
    WordsAreCarried(env, e, EntryId(e).value);
  }

  lemma TextsAreCarried(env: Environment, e: Entry, id: string)
    requires EntryErrors(env, e) == [] && EntryId(e) == Some(id)
    ensures CarriesTexts(e, Configured(env, e, id))
  {
    TextIsThere(e, "id");
    TextIsThere(e, "audience");
    AudienceIsThere(env, e);
    SetIsTruthy(e, "in_cluster");
  }

  lemma AudienceIsThere(env: Environment, e: Entry)
    requires EntryErrors(env, e) == []
    ensures TextOf(Get(e, "audience")).Some?
  {
  }

  lemma ListsAreCarried(env: Environment, e: Entry, id: string)
    requires EntryErrors(env, e) == []
    ensures CarriesLists(e, Configured(env, e, id))
  {
    NamesAre(e, "allowed_email_domains");
    NamesAre(e, "namespace_allowlist");
  }

  lemma WordsAreCarried(env: Environment, e: Entry, id: string)
    requires EntryErrors(env, e) == []
    ensures CarriesWords(e, Configured(env, e, id))
  {
    var t := TypeOf(GetOr(e, "type", Str("oidc")));
    assert PolicyErrors(e, t) == [] && VocabularyErrors(e, t) == [];
    VocabularyErrorsAre(e);
  }

  lemma TextIsThere(e: Entry, key: string)
    ensures TextOf(Get(e, key)).Some? <==> HasText(e, key)
    ensures forall text :: TextOf(Get(e, key)) == Some(text) <==> SaysText(e, key, text)
  {
    if TextOf(Get(e, key)).Some? {
      assert SaysText(e, key, TextOf(Get(e, key)).value);
    }
  }

  lemma SetIsTruthy(e: Entry, key: string)
    ensures Truthy(Get(e, key)) <==> IsSet(e, key)
  {
  }

  lemma {:induction false} TextsAre(items: seq<Json>, name: string)
    ensures name in Texts(items) <==> name != "" && exists i :: 0 <= i < |items| && items[i].Str? && name == Strip(items[i].s)
  {
    if items != [] {
      TextsAre(items[1..], name);
      assert items == [items[0]] + items[1..];
      if i :| 0 <= i < |items| && items[i].Str? && name == Strip(items[i].s) {
        assert i > 0 ==> items[1..][i - 1] == items[i];
      }
    }
  }

  lemma NamesAre(e: Entry, key: string)
    ensures forall name :: name in AsTuple(Get(e, key)) <==> Lists(e, key, name)
    ensures AsTuple(Get(e, key)) != [] <==> exists name :: Lists(e, key, name)
  {
    forall name ensures name in AsTuple(Get(e, key)) <==> Lists(e, key, name) {
      if Get(e, key).List? {
        TextsAre(Get(e, key).items, name);
      }
    }
    if AsTuple(Get(e, key)) != [] {
      assert AsTuple(Get(e, key))[0] in AsTuple(Get(e, key));
    }
  }

  lemma {:induction false} WrongTypesAre(e: Entry, fields: seq<string>, listAllowed: bool)
    ensures WrongTypes(e, fields, listAllowed) == [] <==>
              forall k :: k in fields && k in e ==> e[k].Null? || e[k].Str? || (listAllowed && e[k].List?)
  {
    if fields != [] {
      WrongTypesAre(e, fields[1..], listAllowed);
      assert fields == [fields[0]] + fields[1..];
    }
  }

  lemma TypeErrorsAre(e: Entry)
    ensures TypeErrors(e) == [] <==> WellTyped(e)
  {
    WrongTypesAre(e, STRING_FIELDS, false);
    WrongTypesAre(e, LIST_FIELDS, true);
  }

  lemma VocabularyErrorsAre(e: Entry)
    ensures VocabularyErrors(e, TypeOf(GetOr(e, "type", Str("oidc")))) == [] <==> InVocabulary(e)
  {
  }

  lemma CombinationErrorsAre(e: Entry)
    requires InVocabulary(e)
    ensures CombinationErrors(e, TypeOf(GetOr(e, "type", Str("oidc")))) == [] <==> WellCombined(e)
  {
    NamesAre(e, "allowed_email_domains");
  }

  lemma PolicyErrorsAre(e: Entry)
    requires WellTyped(e)
    ensures PolicyErrors(e, TypeOf(GetOr(e, "type", Str("oidc")))) == []
            <==> InVocabulary(e) && WellCombined(e) && AlgorithmsAreAsymmetric(e) && HasText(e, "audience")
  {
    VocabularyErrorsAre(e);
    if InVocabulary(e) {
      CombinationErrorsAre(e);
    }
    AlgorithmErrorsAre(e);
    TextIsThere(e, "audience");
  }

  // ---------------------------------------------------------------------------------------------
  // Algorithms
  // ---------------------------------------------------------------------------------------------

  lemma {:induction false} CanonicalIsFound(names: seq<string>, upper: string)
    ensures CanonicalIn(names, upper).Some? <==> exists a :: a in names && Upper(a) == upper
    ensures CanonicalIn(names, upper).Some? ==> CanonicalIn(names, upper).value in names && Upper(CanonicalIn(names, upper).value) == upper
  {
    if names != [] {
      CanonicalIsFound(names[1..], upper);
      assert names == [names[0]] + names[1..];
      if a :| a in names && Upper(a) == upper {
        assert a == names[0] || a in names[1..];
      }
    }
  }

  /** A name is taken for an algorithm of the asymmetric set exactly when it spells one, letter case
      aside; no spelling of `none` or of a symmetric algorithm does. */
  lemma AlgorithmsAreSpelled(name: string)
    ensures Algorithm(name).Ok? <==> SpellsAnAsymmetricOne(name)
    ensures Algorithm(name).Ok? ==> Algorithm(name).value in ASYMMETRIC_ALGORITHMS && Upper(Algorithm(name).value) == Upper(name)
  {
    CanonicalIsFound(ASYMMETRIC_ALGORITHMS, Upper(name));
    if SpellsAnAsymmetricOne(name) {
      SpellingsAreNotRefused(name);
    }
  }

  lemma SpellingsAreNotRefused(name: string)
    requires SpellsAnAsymmetricOne(name)
    ensures Upper(name) != "NONE" && Upper(name) !in HMAC_ALGORITHMS
  {
    var a :| a in ASYMMETRIC_ALGORITHMS && Upper(a) == Upper(name);
    AsymmetricInitials(a);
  }

  /** An accepted provider's algorithms are the configured names in their canonical spelling, and RS256
      alone when none are configured. */
  lemma AlgorithmsAreCarried(env: Environment, e: Entry, seenIds: set<string>)
    requires Validate(env, e, seenIds).Accepted?
    ensures var algorithms := Validate(env, e, seenIds).provider.algorithms;
            if "allowed_algorithms" !in e || e["allowed_algorithms"] == Null then algorithms == ["RS256"]
            else
              && (forall a :: a in algorithms ==> a in ASYMMETRIC_ALGORITHMS && exists name :: Lists(e, "allowed_algorithms", name) && Upper(name) == Upper(a))
              && (forall name :: Lists(e, "allowed_algorithms", name) ==> exists a :: a in algorithms && Upper(a) == Upper(name))
  {
    var j := Get(e, "allowed_algorithms");
    assert Algorithms(j).1 == [];
    if !j.Null? {
      var raw := AsTuple(j);
      ReadAlgorithms(j);
      NamesAre(e, "allowed_algorithms");
      CanonicalsAreListed(Algorithm, raw);
      CanonicalsAreSpelled(raw);
    }
  }

  lemma CanonicalsAreSpelled(raw: seq<string>)
    requires AlgorithmErrors(Algorithm, raw) == []
    ensures forall a :: a in Canonicals(Algorithm, raw) ==> a in ASYMMETRIC_ALGORITHMS && exists name :: name in raw && Upper(name) == Upper(a)
    ensures forall name :: name in raw ==> exists a :: a in Canonicals(Algorithm, raw) && Upper(a) == Upper(name)
  {
    CanonicalsAreListed(Algorithm, raw);
    forall i | 0 <= i < |raw| ensures SpellsAt(Canonicals(Algorithm, raw), raw, i) {
      AlgorithmsAreSpelled(raw[i]);
    }
    SpelledOneByOne(Canonicals(Algorithm, raw), raw);
  }

  predicate SpellsAt(canonical: seq<string>, raw: seq<string>, i: nat)
    requires |canonical| == |raw| && i < |raw|
  {
    canonical[i] in ASYMMETRIC_ALGORITHMS && Upper(canonical[i]) == Upper(raw[i])
  }

  lemma SpelledOneByOne(canonical: seq<string>, raw: seq<string>)
    requires |canonical| == |raw| && forall i :: 0 <= i < |raw| ==> SpellsAt(canonical, raw, i)
    ensures forall a :: a in canonical ==> a in ASYMMETRIC_ALGORITHMS && exists name :: name in raw && Upper(name) == Upper(a)
    ensures forall name :: name in raw ==> exists a :: a in canonical && Upper(a) == Upper(name)
  {
    forall a | a in canonical ensures a in ASYMMETRIC_ALGORITHMS && exists name :: name in raw && Upper(name) == Upper(a) {
      var i :| 0 <= i < |canonical| && canonical[i] == a;
      assert SpellsAt(canonical, raw, i) && raw[i] in raw;
    }
    forall name | name in raw ensures exists a :: a in canonical && Upper(a) == Upper(name) {
      var i :| 0 <= i < |raw| && raw[i] == name;
      assert SpellsAt(canonical, raw, i) && canonical[i] in canonical;
    }
  }

  lemma AsymmetricInitials(a: string)
    requires a in ASYMMETRIC_ALGORITHMS
    ensures Upper(a) !in HMAC_ALGORITHMS && Upper(a) != "NONE"
  {
    StartsLikeAnAsymmetricOne(a);
    InitialsTellThemApart(a);
  }

  lemma StartsLikeAnAsymmetricOne(a: string)
    requires a in ASYMMETRIC_ALGORITHMS
    ensures a != "" && (a[0] == 'R' || a[0] == 'P' || a[0] == 'E')
  {
  }

  lemma InitialsTellThemApart(a: string)
    requires a != "" && (a[0] == 'R' || a[0] == 'P' || a[0] == 'E')
    ensures Upper(a) !in HMAC_ALGORITHMS && Upper(a) != "NONE"
  {
    FoldingIsPointwise(a);
    assert Upper(a)[0] == a[0];
  }

  lemma {:induction false} NoErrorsMeansAllPass(check: string -> Result<string, Reason>, raw: seq<string>)
    ensures AlgorithmErrors(check, raw) == [] <==> forall n :: n in raw ==> check(n).Ok?
  {
    if raw != [] {
      NoErrorsMeansAllPass(check, raw[..|raw| - 1]);
      assert raw == raw[..|raw| - 1] + [raw[|raw| - 1]];
    }
  }

  lemma NoErrorsMeansAllSpelled(raw: seq<string>)
    ensures AlgorithmErrors(Algorithm, raw) == [] <==> forall n :: n in raw ==> SpellsAnAsymmetricOne(n)
  {
    NoErrorsMeansAllPass(Algorithm, raw);
    forall n ensures Algorithm(n).Ok? <==> SpellsAnAsymmetricOne(n) {
      AlgorithmsAreSpelled(n);
    }
  }

  lemma AlgorithmErrorsAre(e: Entry)
    requires WellTyped(e)
    ensures Algorithms(Get(e, "allowed_algorithms")).1 == [] <==> AlgorithmsAreAsymmetric(e)
  {
    var j := Get(e, "allowed_algorithms");
    if !j.Null? {
      NamesAre(e, "allowed_algorithms");
      NoErrorsMeansAllSpelled(AsTuple(j));
      ReadAlgorithms(j);
    }
  }

  lemma ReadAlgorithms(j: Json)
    requires !j.Null?
    ensures Algorithms(j).1 == [] <==> !HasNonString(j) && AsTuple(j) != [] && AlgorithmErrors(Algorithm, AsTuple(j)) == []
  {
  }

  // ---------------------------------------------------------------------------------------------
  // Key sources
  // ---------------------------------------------------------------------------------------------

  lemma {:induction false} NamespaceErrorsAre(names: seq<string>)
    ensures NamespaceErrors(names) == [] <==> forall n :: n in names ==> ServiceAccounts.ValidDnsLabel(n)
  {
    if names != [] {
      NamespaceErrorsAre(names[1..]);
      assert names == [names[0]] + names[1..];
    }
  }

  lemma {:induction false} KubernetesOnlyErrorsAre(e: Entry, fields: seq<string>)
    ensures KubernetesOnlyErrors(e, fields) == [] <==> forall k :: k in fields ==> !IsSet(e, k)
  {
    if fields != [] {
      KubernetesOnlyErrorsAre(e, fields[1..]);
      SetIsTruthy(e, fields[0]);
      assert fields == [fields[0]] + fields[1..];
    }
  }

  lemma KubernetesErrorsAre(env: Environment, e: Entry)
    ensures KubernetesErrors(env, e) == [] <==>
              && (IsSet(e, "discovery_url") || IsSet(e, "jwks_inline") || IsSet(e, "jwks_uri") || IsSet(e, "in_cluster"))
              && (IsSet(e, "jwks_inline") ==> env.readableKeys(e["jwks_inline"]))
              && (exists n :: Lists(e, "namespace_allowlist", n))
              && (forall n :: Lists(e, "namespace_allowlist", n) ==> ServiceAccounts.ValidDnsLabel(n))
  {
    SetIsTruthy(e, "discovery_url");
    SetIsTruthy(e, "jwks_inline");
    SetIsTruthy(e, "jwks_uri");
    SetIsTruthy(e, "in_cluster");
    NamesAre(e, "namespace_allowlist");
    NamespaceErrorsAre(AsTuple(Get(e, "namespace_allowlist")));
  }

  lemma SourceErrorsAre(env: Environment, e: Entry)
    requires InVocabulary(e)
    ensures SourceErrors(env, e, TypeOf(GetOr(e, "type", Str("oidc")))) == [] <==> NamesItsSource(env, e)
  {
    TextIsThere(e, "issuer");
    TextIsThere(e, "discovery_url");
    KubernetesOnlyErrorsAre(e, KUBERNETES_ONLY_FIELDS);
    KubernetesErrorsAre(env, e);
  }
}
