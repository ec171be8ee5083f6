/** Registry entries, providers and the validation of one entry (mlflow_oidc_auth/provider_registry.py). */
module ProviderEntries {
  import opened Wrappers
  import opened Text
  import ServiceAccounts

  const DEFAULT_PROVIDER_ID := "default"

  datatype Json =
    | Null
    | Bool(b: bool)
    | Number(n: int)
    | Str(s: string)
    | List(items: seq<Json>)
    | Object(fields: map<string, Json>)

  type Entry = map<string, Json>

  datatype ProviderType = Oidc | Saml | K8s
  datatype Provisioning = Jit | Scim | NoProvisioning
  datatype GroupSync = SyncNever | SyncFirstLogin | SyncEveryLogin
  datatype GroupMode = Additive | Authoritative
  datatype AdminSource = FromClaims | FromNowhere
  datatype Binding = BySubject | ByEmail

  datatype Provider = Provider(
    id: string,
    ptype: ProviderType,
    displayName: string,
    provisioning: Provisioning,
    groupSync: GroupSync,
    groupMode: GroupMode,
    adminSource: AdminSource,
    binding: Binding,
    interactive: bool,
    emailDomains: seq<string>,
    algorithms: seq<string>,
    audience: Option<string>,
    issuer: Option<string>,
    discoveryUrl: Option<string>,
    clientId: Option<string>,
    jwksInline: Option<Json>,
    jwksUri: Option<string>,
    caBundle: Option<string>,
    inCluster: bool,
    namespaces: seq<string>)

  const HMAC_ALGORITHMS := ["HS256", "HS384", "HS512"]
  const ASYMMETRIC_ALGORITHMS := ["RS256", "RS384", "RS512", "PS256", "PS384", "PS512", "ES256", "ES384", "ES512", "EdDSA"]
  const DEFAULT_ALGORITHMS := ["RS256"]

  const STRING_FIELDS := ["type", "display_name", "provisioning", "group_sync", "group_sync_mode", "admin_source",
                          "identity_binding", "audience", "issuer", "discovery_url", "client_id"]
  const LIST_FIELDS := ["allowed_email_domains", "allowed_algorithms"]
  const KUBERNETES_ONLY_FIELDS := ["jwks_inline", "jwks_uri", "in_cluster", "ca_bundle_path", "namespace_allowlist"]

  datatype Reason =
    | MissingId | RepeatedId | WrongType(field: string) | UnknownValue(field: string) | AdminFromScim
    | NotBoolean | NoBrowserFlow | DomainsRequired
    | AlgorithmsNotStrings | NoAlgorithmListed | UnsignedAlgorithm | SymmetricAlgorithm | UnknownAlgorithm
    | AudienceRequired | IssuerRequired | DiscoveryRequired | KubernetesOnly(field: string)
    | NoKeySource | BadInlineKeys | AllowlistRequired | BadNamespace | SamlNotInstalled

  datatype Verdict = Accepted(provider: Provider) | Rejected(reasons: seq<Reason>)

  /** What loading asks of its surroundings: whether SAML is installed, which inline key sets parse,
      what a file holds and what a text parses to. */
  datatype Environment = Environment(
    samlInstalled: bool,
    readableKeys: Json -> bool,
    readFile: string -> Option<string>,
    parse: string -> Option<Json>)

  // ---------------------------------------------------------------------------------------------
  // Reading an entry
  // ---------------------------------------------------------------------------------------------

  function Get(e: Entry, key: string): (r: Json) { if key in e then e[key] else Null }

  function GetOr(e: Entry, key: string, otherwise: Json): (r: Json) { if key in e then e[key] else otherwise }

  predicate Truthy(j: Json) {
    match j
    case Null => false
    case Bool(b) => b
    case Number(n) => n != 0
    case Str(s) => s != ""
    case List(items) => items != []
    case Object(fields) => fields != map[]
  }

  /** The stripped text of a non-blank string. */
  function TextOf(j: Json): (r: Option<string>) { if j.Str? && Strip(j.s) != "" then Some(Strip(j.s)) else None }

  function AsTuple(j: Json): (r: seq<string>) {
    match j
    case Str(s) => if Strip(s) == "" then [] else [Strip(s)]
    case List(items) => Texts(items)
    case _ => []
  }

  function Texts(items: seq<Json>): (r: seq<string>) {
    if items == [] then []
    else (if TextOf(items[0]).Some? then [TextOf(items[0]).value] else []) + Texts(items[1..])
  }

  function Flag(bad: bool, r: Reason): (result: seq<Reason>) { if bad then [r] else [] }

  function TypeErrors(e: Entry): (r: seq<Reason>) {
    WrongTypes(e, STRING_FIELDS, false) + WrongTypes(e, LIST_FIELDS, true)
  }

  function WrongTypes(e: Entry, fields: seq<string>, listAllowed: bool): (r: seq<Reason>) {
    if fields == [] then []
    else
      var v := Get(e, fields[0]);
      Flag(!(v.Null? || v.Str? || (listAllowed && v.List?)), WrongType(fields[0])) + WrongTypes(e, fields[1..], listAllowed)
  }

  // ---------------------------------------------------------------------------------------------
  // Algorithms
  // ---------------------------------------------------------------------------------------------

  function CanonicalIn(names: seq<string>, upper: string): (r: Option<string>) {
    if names == [] then None
    else if Upper(names[0]) == upper then Some(names[0])
    else CanonicalIn(names[1..], upper)
  }

  /** The canonical spelling of one configured algorithm, or why it is refused. */
  function Algorithm(name: string): (r: Result<string, Reason>) {
    var upper := Upper(name);
    if upper == "NONE" then Err(UnsignedAlgorithm)
    else if upper in HMAC_ALGORITHMS then Err(SymmetricAlgorithm)
    else
      var canonical := CanonicalIn(ASYMMETRIC_ALGORITHMS, upper);
      if canonical.None? then Err(UnknownAlgorithm) else Ok(canonical.value)
  }

  /** The successes of checking names one by one, and the failures. */
  function Canonicals(check: string -> Result<string, Reason>, raw: seq<string>): (r: seq<string>) {
    if raw == [] then []
    else
      var last := check(raw[|raw| - 1]);
      Canonicals(check, raw[..|raw| - 1]) + if last.Ok? then [last.value] else []
  }

  function AlgorithmErrors(check: string -> Result<string, Reason>, raw: seq<string>): (r: seq<Reason>) {
    if raw == [] then []
    else
      var last := check(raw[|raw| - 1]);
      AlgorithmErrors(check, raw[..|raw| - 1]) + if last.Ok? then [] else [last.error]
  }

  predicate HasNonString(j: Json) { j.List? && exists i :: 0 <= i < |j.items| && !j.items[i].Str? }

  function Algorithms(j: Json): (r: (seq<string>, seq<Reason>)) {
    if j.Null? then (DEFAULT_ALGORITHMS, [])
    else if HasNonString(j) then (DEFAULT_ALGORITHMS, [AlgorithmsNotStrings])
    else
      var raw := AsTuple(j);
      if raw == [] then (DEFAULT_ALGORITHMS, [NoAlgorithmListed])
      else if AlgorithmErrors(Algorithm, raw) != [] then (DEFAULT_ALGORITHMS, AlgorithmErrors(Algorithm, raw))
      else (Canonicals(Algorithm, raw), [])
  }

  method ValidateAlgorithms(j: Json) returns (algorithms: seq<string>, errors: seq<Reason>)
    ensures (algorithms, errors) == Algorithms(j)
    ensures errors == [] ==> Pinned(algorithms)
  {
    AlgorithmsArePinned(j);
    if j.Null? {
      return DEFAULT_ALGORITHMS, [];
    }
    if HasNonString(j) {
      return DEFAULT_ALGORITHMS, [AlgorithmsNotStrings];
    }
    var raw := AsTuple(j);
    if raw == [] {
      return DEFAULT_ALGORITHMS, [NoAlgorithmListed];
    }
    algorithms, errors := CanonicaliseAll(Algorithm, raw);
    if errors != [] {
      algorithms := DEFAULT_ALGORITHMS;
    }
  }

  /** The loop over the configured names. */
  method CanonicaliseAll(check: string -> Result<string, Reason>, raw: seq<string>) returns (algorithms: seq<string>, errors: seq<Reason>)
    ensures algorithms == Canonicals(check, raw) && errors == AlgorithmErrors(check, raw)
  {
    algorithms, errors := [], [];
    assert raw[..0] == [];
    for i := 0 to |raw|
      invariant algorithms == Canonicals(check, raw[..i]) && errors == AlgorithmErrors(check, raw[..i])
    {
      assert raw[..i + 1][..i] == raw[..i];
      var checked := check(raw[i]);
      if checked.Ok? {
        algorithms := algorithms + [checked.value];
      } else {
        errors := errors + [checked.error];
      }
    }
    assert raw[..|raw|] == raw;
  }

  /** A usable pinned set: not empty, and asymmetric throughout. */
  predicate Pinned(algorithms: seq<string>) {
    algorithms != [] && forall i :: 0 <= i < |algorithms| ==> algorithms[i] in ASYMMETRIC_ALGORITHMS
  }

  lemma {:induction false} CanonicalIsListed(names: seq<string>, upper: string)
    ensures CanonicalIn(names, upper).Some? ==> CanonicalIn(names, upper).value in names
  {
    if names != [] {
      CanonicalIsListed(names[1..], upper);
    }
  }

  lemma AlgorithmIsListed(name: string)
    ensures Algorithm(name).Ok? ==> Algorithm(name).value in ASYMMETRIC_ALGORITHMS
  {
    CanonicalIsListed(ASYMMETRIC_ALGORITHMS, Upper(name));
  }

  lemma {:induction false} CanonicalsAreListed(check: string -> Result<string, Reason>, raw: seq<string>)
    requires AlgorithmErrors(check, raw) == []
    ensures |Canonicals(check, raw)| == |raw|
    ensures forall i :: 0 <= i < |raw| ==> check(raw[i]).Ok? && Canonicals(check, raw)[i] == check(raw[i]).value
  {
    if raw != [] {
      CanonicalsAreListed(check, raw[..|raw| - 1]);
    }
  }

  lemma AlgorithmsArePinned(j: Json)
    ensures Algorithms(j).1 == [] ==> Pinned(Algorithms(j).0)
  {
    assert DEFAULT_ALGORITHMS[0] in ASYMMETRIC_ALGORITHMS by { assert ASYMMETRIC_ALGORITHMS[0] == "RS256"; }
    var raw := AsTuple(j);
    if AlgorithmErrors(Algorithm, raw) == [] {
      CanonicalsAreListed(Algorithm, raw);
      forall i | 0 <= i < |raw| ensures Canonicals(Algorithm, raw)[i] in ASYMMETRIC_ALGORITHMS {
        AlgorithmIsListed(raw[i]);
      }
    }
  }

  // ---------------------------------------------------------------------------------------------
  // Validating one entry
  // ---------------------------------------------------------------------------------------------

  function TypeOf(j: Json): (r: Option<ProviderType>) {
    if j == Str("oidc") then Some(Oidc) else if j == Str("saml") then Some(Saml) else if j == Str("k8s") then Some(K8s) else None
  }

  function ProvisioningOf(j: Json): (r: Option<Provisioning>) {
    if j == Str("jit") then Some(Jit) else if j == Str("scim") then Some(Scim) else if j == Str("none") then Some(NoProvisioning) else None
  }

  function GroupSyncOf(j: Json): (r: Option<GroupSync>) {
    if j == Str("none") then Some(SyncNever) else if j == Str("first_login") then Some(SyncFirstLogin)
    else if j == Str("every_login") then Some(SyncEveryLogin) else None
  }

  function GroupModeOf(j: Json): (r: Option<GroupMode>) {
    if j == Str("additive") then Some(Additive) else if j == Str("authoritative") then Some(Authoritative) else None
  }

  function AdminSourceOf(j: Json): (r: Result<AdminSource, Reason>) {
    if j == Str("scim") then Err(AdminFromScim)
    else if j == Str("claims") then Ok(FromClaims)
    else if j == Str("none") then Ok(FromNowhere)
    else Err(UnknownValue("admin_source"))
  }

  function BindingOf(j: Json): (r: Option<Binding>) {
    if j == Str("subject") then Some(BySubject) else if j == Str("email") then Some(ByEmail) else None
  }

  function KubernetesErrors(env: Environment, e: Entry): (r: seq<Reason>) {
    Flag(!(Truthy(Get(e, "discovery_url")) || Truthy(Get(e, "jwks_inline")) || Truthy(Get(e, "jwks_uri")) || Truthy(Get(e, "in_cluster"))),
         NoKeySource)
    + Flag(Truthy(Get(e, "jwks_inline")) && !env.readableKeys(Get(e, "jwks_inline")), BadInlineKeys)
    + Flag(AsTuple(Get(e, "namespace_allowlist")) == [], AllowlistRequired)
    + NamespaceErrors(AsTuple(Get(e, "namespace_allowlist")))
  }

  function NamespaceErrors(names: seq<string>): (r: seq<Reason>) {
    if names == [] then [] else Flag(!ServiceAccounts.ValidDnsLabel(names[0]), BadNamespace) + NamespaceErrors(names[1..])
  }

  function KubernetesOnlyErrors(e: Entry, fields: seq<string>): (r: seq<Reason>) {
    if fields == [] then [] else Flag(Truthy(Get(e, fields[0])), KubernetesOnly(fields[0])) + KubernetesOnlyErrors(e, fields[1..])
  }

  function SourceErrors(env: Environment, e: Entry, t: Option<ProviderType>): (r: seq<Reason>) {
    (if t == Some(Oidc) || t == Some(K8s) then
       Flag(TextOf(Get(e, "issuer")).None?, IssuerRequired)
       + (if t == Some(K8s) then KubernetesErrors(env, e) else KubernetesOnlyErrors(e, KUBERNETES_ONLY_FIELDS))
       + Flag(t == Some(Oidc) && TextOf(Get(e, "discovery_url")).None?, DiscoveryRequired)
     else [])
    + Flag(t == Some(Saml) && !env.samlInstalled, SamlNotInstalled)
  }

  /** Fields outside their vocabulary. */
  function VocabularyErrors(e: Entry, t: Option<ProviderType>): (r: seq<Reason>) {
    Flag(t.None?, UnknownValue("type"))
    + Flag(ProvisioningOf(GetOr(e, "provisioning", Str("jit"))).None?, UnknownValue("provisioning"))
    + Flag(GroupSyncOf(GetOr(e, "group_sync", Str("every_login"))).None?, UnknownValue("group_sync"))
    + Flag(GroupModeOf(GetOr(e, "group_sync_mode", Str("authoritative"))).None?, UnknownValue("group_sync_mode"))
    + (match AdminSourceOf(GetOr(e, "admin_source", Str("claims"))) case Ok(_) => [] case Err(r) => [r])
    + Flag(BindingOf(GetOr(e, "identity_binding", Str("subject"))).None?, UnknownValue("identity_binding"))
  }

  /** Values that are refused together with others. */
  function CombinationErrors(e: Entry, t: Option<ProviderType>): (r: seq<Reason>) {
    var interactive := GetOr(e, "interactive", Bool(t != Some(K8s)));
    Flag(!interactive.Bool?, NotBoolean)
    + Flag(interactive == Bool(true) && t == Some(K8s), NoBrowserFlow)
    + Flag(GetOr(e, "identity_binding", Str("subject")) == Str("email") && AsTuple(Get(e, "allowed_email_domains")) == [], DomainsRequired)
  }

  function PolicyErrors(e: Entry, t: Option<ProviderType>): (r: seq<Reason>) {
    VocabularyErrors(e, t) + CombinationErrors(e, t)
    + Algorithms(Get(e, "allowed_algorithms")).1
    + Flag(TextOf(Get(e, "audience")).None?, AudienceRequired)
  }

  function EntryErrors(env: Environment, e: Entry): (r: seq<Reason>) {
    var t := TypeOf(GetOr(e, "type", Str("oidc")));
    PolicyErrors(e, t) + SourceErrors(env, e, t)
  }

  function Stripped(j: Json): (r: Option<string>) { if j.Str? then Some(Strip(j.s)) else None }

  function Configured(env: Environment, e: Entry, id: string): (r: Provider)
    requires EntryErrors(env, e) == []
  {
    Provider(
      id,
      TypeOf(GetOr(e, "type", Str("oidc"))).value,
      if Get(e, "display_name").Str? && Get(e, "display_name").s != "" then Get(e, "display_name").s else id,
      ProvisioningOf(GetOr(e, "provisioning", Str("jit"))).value,
      GroupSyncOf(GetOr(e, "group_sync", Str("every_login"))).value,
      GroupModeOf(GetOr(e, "group_sync_mode", Str("authoritative"))).value,
      if "admin_source" in e then AdminSourceOf(e["admin_source"]).value else if id == DEFAULT_PROVIDER_ID then FromClaims else FromNowhere,
      BindingOf(GetOr(e, "identity_binding", Str("subject"))).value,
      GetOr(e, "interactive", Bool(TypeOf(GetOr(e, "type", Str("oidc"))) != Some(K8s))).b,
      AsTuple(Get(e, "allowed_email_domains")),
      Algorithms(Get(e, "allowed_algorithms")).0,
      TextOf(Get(e, "audience")),
      Stripped(Get(e, "issuer")),
      Stripped(Get(e, "discovery_url")),
      Stripped(Get(e, "client_id")),
      if Get(e, "jwks_inline").Str? || Get(e, "jwks_inline").Object? then Some(Get(e, "jwks_inline")) else None,
      TextOf(Get(e, "jwks_uri")),
      TextOf(Get(e, "ca_bundle_path")),
      Truthy(Get(e, "in_cluster")),
      AsTuple(Get(e, "namespace_allowlist")))
  }

  function EntryId(e: Entry): (r: Option<string>) { TextOf(Get(e, "id")) }

  function Validate(env: Environment, e: Entry, seenIds: set<string>): (r: Verdict) {
    var id := EntryId(e);
    if id.None? then Rejected([MissingId])
    else if id.value in seenIds then Rejected([RepeatedId])
    else if TypeErrors(e) != [] then Rejected(TypeErrors(e))
    else if EntryErrors(env, e) != [] then Rejected(EntryErrors(env, e))
    else Accepted(Configured(env, e, id.value))
  }

  /** What token validation relies on: a pinned algorithm set, an audience, and for the types that
      validate tokens an issuer. */
  predicate Sound(p: Provider) {
    && Pinned(p.algorithms)
    && p.audience.Some? && p.audience.value != ""
    && (p.ptype.Oidc? || p.ptype.K8s? ==> p.issuer.Some? && p.issuer.value != "")
  }

  lemma AcceptedProvidersAreSound(env: Environment, e: Entry, seenIds: set<string>)
    requires Validate(env, e, seenIds).Accepted?
    ensures Sound(Validate(env, e, seenIds).provider)
    ensures EntryId(e) == Some(Validate(env, e, seenIds).provider.id)
  {
    AlgorithmsArePinned(Get(e, "allowed_algorithms"));
  }

  lemma {:induction false} TextsAreStripped(items: seq<Json>)
    ensures forall i :: 0 <= i < |Texts(items)| ==> Texts(items)[i] != "" && Texts(items)[i] == Strip(Texts(items)[i])
  {
    if items != [] {
      TextsAreStripped(items[1..]);
      if TextOf(items[0]).Some? {
        StripIdempotent(items[0].s);
      }
    }
  }

  lemma {:induction false} NamespacesAreChecked(names: seq<string>)
    requires NamespaceErrors(names) == []
    ensures forall i :: 0 <= i < |names| ==> ServiceAccounts.ValidDnsLabel(names[i])
  {
    if names != [] {
      assert ServiceAccounts.ValidDnsLabel(names[0]);
      NamespacesAreChecked(names[1..]);
    }
  }

  /** A Kubernetes provider is accepted only with an allowlist; every service account it admits lives in
      a namespace Kubernetes could have, and is one Kubernetes could have exactly when the token's
      subject has no line feed. */
  lemma AdmittedNamespacesAreReal(env: Environment, e: Entry, seenIds: set<string>, subject: string)
    requires Validate(env, e, seenIds).Accepted? && Validate(env, e, seenIds).provider.ptype.K8s?
    ensures var allowlist := Validate(env, e, seenIds).provider.namespaces;
            var account := ServiceAccounts.Admitted(subject, allowlist);
            && allowlist != []
            && (account.Some? ==> ServiceAccounts.DnsLabel(account.value.namespace))
            && (account.Some? ==> (ServiceAccounts.DnsLabel(account.value.name) <==> '\n' !in subject))
  {
    AcceptedClustersHaveCheckedNamespaces(env, e, seenIds);
    var names := AsTuple(Get(e, "namespace_allowlist"));
    NamespacesAreChecked(names);
    TuplesAreStripped(Get(e, "namespace_allowlist"));
    ServiceAccounts.AllowedNamespacesAreReal(subject, names);
    if ServiceAccounts.Admitted(subject, names).Some? {
      ServiceAccounts.AdmittedAccountsAreRealIffNoLineFeed(subject, names);
    }
  }

  lemma AcceptedClustersHaveCheckedNamespaces(env: Environment, e: Entry, seenIds: set<string>)
    requires Validate(env, e, seenIds).Accepted? && Validate(env, e, seenIds).provider.ptype.K8s?
    ensures var names := AsTuple(Get(e, "namespace_allowlist"));
            Validate(env, e, seenIds).provider.namespaces == names && names != [] && NamespaceErrors(names) == []
  {
    var t := TypeOf(GetOr(e, "type", Str("oidc")));
    assert SourceErrors(env, e, t) == [] && KubernetesErrors(env, e) == [];
  }

  lemma TuplesAreStripped(j: Json)
    ensures forall i :: 0 <= i < |AsTuple(j)| ==> AsTuple(j)[i] == Strip(AsTuple(j)[i])
  {
    match j
    case Str(s) => StripIdempotent(s);
    case List(items) => TextsAreStripped(items);
    case _ =>
  }

  /** Ids that earlier entries have put in the set play no part for an entry with its own id. */
  lemma FreshIdsValidateAlike(env: Environment, e: Entry, seenIds: set<string>)
    requires EntryId(e).Some? ==> EntryId(e).value !in seenIds
    ensures Validate(env, e, seenIds) == Validate(env, e, {})
    ensures Validate(env, e, {}).Rejected? ==> Validate(env, e, {}).reasons != [] && RepeatedId !in Validate(env, e, {}).reasons
  {
    ReasonsAreNotRepeats(env, e);
  }

  lemma ReasonsAreNotRepeats(env: Environment, e: Entry)
    ensures RepeatedId !in TypeErrors(e) && RepeatedId !in EntryErrors(env, e)
  {
    WrongTypesAreNot(e, STRING_FIELDS, false);
    WrongTypesAreNot(e, LIST_FIELDS, true);
    var t := TypeOf(GetOr(e, "type", Str("oidc")));
    PolicyReasonsAreNotRepeats(e, t);
    SourceReasonsAreNotRepeats(env, e, t);
  }

  lemma SourceReasonsAreNotRepeats(env: Environment, e: Entry, t: Option<ProviderType>)
    ensures RepeatedId !in SourceErrors(env, e, t)
  {
    KubernetesOnlyAreNot(e, KUBERNETES_ONLY_FIELDS);
    KubernetesErrorsAreNot(env, e);
  }

  lemma PolicyReasonsAreNotRepeats(e: Entry, t: Option<ProviderType>)
    ensures RepeatedId !in PolicyErrors(e, t)
  {
    AlgorithmErrorsAreNot(AsTuple(Get(e, "allowed_algorithms")));
    VocabularyErrorsAreNot(e, t);
  }

  lemma VocabularyErrorsAreNot(e: Entry, t: Option<ProviderType>)
    ensures RepeatedId !in VocabularyErrors(e, t) && RepeatedId !in CombinationErrors(e, t)
  {
  }

  lemma WrongTypesAreNot(e: Entry, fields: seq<string>, listAllowed: bool)
    ensures RepeatedId !in WrongTypes(e, fields, listAllowed)
  {
  }

  lemma AlgorithmErrorsAreNot(raw: seq<string>)
    ensures RepeatedId !in AlgorithmErrors(Algorithm, raw)
  {
  }

  lemma KubernetesErrorsAreNot(env: Environment, e: Entry)
    ensures RepeatedId !in KubernetesErrors(env, e)
  {
    NamespaceErrorsAreNot(AsTuple(Get(e, "namespace_allowlist")));
  }

  lemma NamespaceErrorsAreNot(names: seq<string>)
    ensures RepeatedId !in NamespaceErrors(names)
  {
  }

  lemma KubernetesOnlyAreNot(e: Entry, fields: seq<string>)
    ensures RepeatedId !in KubernetesOnlyErrors(e, fields)
  {
  }

  // ---------------------------------------------------------------------------------------------
  // What the loader relies on
  // ---------------------------------------------------------------------------------------------

  /** How a loader reads an entry's id and checks the entry against the ids seen so far. */
  datatype Validator = Validator(idOf: Entry -> Option<string>, check: (Entry, set<string>) -> Verdict)

  function ValidatorIn(env: Environment): (r: Validator) {
    Validator(EntryId, (e: Entry, seenIds: set<string>) => Validate(env, e, seenIds))
  }

  predicate Fresh(v: Validator, e: Entry, seenIds: set<string>) { v.idOf(e).None? || v.idOf(e).value !in seenIds }

  /** Accepted providers are sound and carry the entry's id; an entry with an id not seen yet is judged
      as if nothing had been seen. */
  predicate Lawful(v: Validator, e: Entry, seenIds: set<string>) {
    var verdict := v.check(e, seenIds);
    && (verdict.Accepted? ==> Sound(verdict.provider) && v.idOf(e) == Some(verdict.provider.id))
    && (Fresh(v, e, seenIds) ==> verdict == v.check(e, {}))
    && (Fresh(v, e, seenIds) && verdict.Rejected? ==> verdict.reasons != [] && RepeatedId !in verdict.reasons)
  }

  ghost predicate Trustworthy(v: Validator) {
    forall e, seenIds {:trigger v.check(e, seenIds)} :: Lawful(v, e, seenIds)
  }

  lemma ValidationIsTrustworthy(env: Environment)
    ensures Trustworthy(ValidatorIn(env))
  {
    var v := ValidatorIn(env);
    forall e, seenIds ensures Lawful(v, e, seenIds) {
      if v.check(e, seenIds).Accepted? {
        AcceptedProvidersAreSound(env, e, seenIds);
      }
      if Fresh(v, e, seenIds) {
        FreshIdsValidateAlike(env, e, seenIds);
      }
    }
  }
}
