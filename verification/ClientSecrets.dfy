/** Which configuration key a provider's client secret is read from (mlflow_oidc_auth/oauth.py). */
module ClientSecrets {
  import opened Wrappers
  import opened Text
  import opened ProviderEntries
  import opened ProviderRegistry

  const DEFAULT_SECRET_KEY := "OIDC_CLIENT_SECRET"
  const SECRET_KEY_PREFIX := "OIDC_CLIENT_SECRET_"

  datatype Settings = Settings(clientId: string, clientSecret: string, metadataUrl: string)

  /** The registry with its source, the flat client settings, and the configuration chain secrets are read from. */
  datatype Deployment = Deployment(
    providers: seq<Provider>,
    source: Source,
    flatClientId: Option<string>,
    flatDiscoveryUrl: Option<string>,
    secretAt: string -> Option<string>)

  predicate Plain(c: char) { 'A' <= c <= 'Z' || '0' <= c <= '9' }

  function DropPunctuation(s: string): (r: string)
    ensures |r| <= |s|
    ensures r != "" ==> Plain(r[0])
  {
    if s != "" && !Plain(s[0]) then DropPunctuation(s[1..]) else s
  }

  /** Each maximal run of other characters becomes one underscore. */
  function Collapse(s: string): (r: string)
    decreases |s|
  {
    if s == "" then ""
    else if Plain(s[0]) then [s[0]] + Collapse(s[1..])
    else "_" + Collapse(DropPunctuation(s[1..]))
  }

  function SecretEnvKey(id: string): (r: string) { SECRET_KEY_PREFIX + Collapse(Upper(id)) }

  /** The key a provider's secret is read from. */
  function SecretKey(id: string): (r: string) { if id == DEFAULT_PROVIDER_ID then DEFAULT_SECRET_KEY else SecretEnvKey(id) }

  /** The ids that lead to a key, in registry order. */
  function IdsAt(ps: seq<Provider>, key: string): (r: seq<string>) {
    if ps == [] then []
    else
      var last := ps[|ps| - 1];
      IdsAt(ps[..|ps| - 1], key) + if SecretEnvKey(last.id) == key then [last.id] else []
  }

  predicate Collides(ps: seq<Provider>, id: string) {
    id in IdsAt(ps, SecretEnvKey(id)) && |IdsAt(ps, SecretEnvKey(id))| > 1
  }

  method CollidingSecretKeys(ps: seq<Provider>) returns (colliding: map<string, seq<string>>)
    ensures forall key :: key in colliding <==> |IdsAt(ps, key)| > 1
    ensures forall key :: key in colliding ==> colliding[key] == IdsAt(ps, key)
  {
    var byKey: map<string, seq<string>> := map[];
    assert ps[..0] == [];
    for i := 0 to |ps|
      invariant Groups(byKey, ps[..i])
    {
      assert ps[..i + 1] == ps[..i] + [ps[i]];
      GroupsNext(byKey, ps[..i], ps[i]);
      var key := SecretEnvKey(ps[i].id);
      byKey := byKey[key := (if key in byKey then byKey[key] else []) + [ps[i].id]];
    }
    assert ps[..|ps|] == ps;
    colliding := map key | key in byKey && |byKey[key]| > 1 :: byKey[key];
  }

  ghost predicate Groups(byKey: map<string, seq<string>>, ps: seq<Provider>) {
    forall key :: (if key in byKey then byKey[key] else []) == IdsAt(ps, key)
  }

  lemma GroupsNext(byKey: map<string, seq<string>>, ps: seq<Provider>, p: Provider)
    requires Groups(byKey, ps)
    ensures var key := SecretEnvKey(p.id);
            Groups(byKey[key := (if key in byKey then byKey[key] else []) + [p.id]], ps + [p])
  {
    assert (ps + [p])[..|ps|] == ps;
  }

  function ById(ps: seq<Provider>, id: string): (r: Option<Provider>) {
    if ps == [] then None else if ps[0].id == id then Some(ps[0]) else ById(ps[1..], id)
  }

  predicate Set(o: Option<string>) { o.Some? && o.value != "" }

  function OrFlat(own: Option<string>, flat: Option<string>, id: string): (r: Option<string>) {
    if Set(own) then own else if id == DEFAULT_PROVIDER_ID then flat else None
  }

  function Assemble(clientId: Option<string>, secret: Option<string>, url: Option<string>): (r: Option<Settings>) {
    if Set(clientId) && Set(secret) && Set(url) then Some(Settings(clientId.value, secret.value, url.value)) else None
  }

  function SettingsFor(d: Deployment, id: string): (r: Option<Settings>) {
    if Collides(d.providers, id) then None
    else
      var provider := ById(d.providers, id);
      if provider.None? then
        if id != DEFAULT_PROVIDER_ID || !d.source.Legacy? then None
        else Assemble(d.flatClientId, d.secretAt(DEFAULT_SECRET_KEY), d.flatDiscoveryUrl)
      else if !provider.value.ptype.Oidc? then None
      else
        Assemble(OrFlat(provider.value.clientId, d.flatClientId, id),
                 d.secretAt(SecretKey(id)),
                 OrFlat(provider.value.discoveryUrl, d.flatDiscoveryUrl, id))
  }

  method ClientSettings(d: Deployment, id: string) returns (r: Option<Settings>)
    ensures r == SettingsFor(d, id)
  {
    var colliding := CollidingSecretKeys(d.providers);
    forall key ensures id in IdsAt(d.providers, key) ==> key == SecretEnvKey(id) {
      IdsAtAre(d.providers, key, id);
    }
    assert Collides(d.providers, id) <==> SecretEnvKey(id) in colliding && id in colliding[SecretEnvKey(id)];
    if exists key :: key in colliding && id in colliding[key] {
      return None;
    }
    var provider := ById(d.providers, id);
    if provider.None? {
      if id != DEFAULT_PROVIDER_ID || !d.source.Legacy? {
        return None;
      }
      return Assemble(d.flatClientId, d.secretAt(DEFAULT_SECRET_KEY), d.flatDiscoveryUrl);
    }
    if !provider.value.ptype.Oidc? {
      return None;
    }
    var clientId := OrFlat(provider.value.clientId, d.flatClientId, id);
    var url := OrFlat(provider.value.discoveryUrl, d.flatDiscoveryUrl, id);
    return Assemble(clientId, d.secretAt(SecretKey(id)), url);
  }

  // ---------------------------------------------------------------------------------------------
  // No secret is shared
  // ---------------------------------------------------------------------------------------------

  ghost predicate HasId(ps: seq<Provider>, id: string) { exists p :: p in ps && p.id == id }

  lemma {:induction false} IdsAtAre(ps: seq<Provider>, key: string, id: string)
    ensures id in IdsAt(ps, key) <==> SecretEnvKey(id) == key && HasId(ps, id)
  {
    if ps != [] {
      var init, last := ps[..|ps| - 1], ps[|ps| - 1];
      IdsAtAre(init, key, id);
      assert ps == init + [last];
      assert HasId(ps, id) <==> HasId(init, id) || last.id == id by {
        assert last in ps;
        assert forall p :: p in ps <==> p in init || p == last;
      }
    }
  }

  lemma {:induction false} ByIdFinds(ps: seq<Provider>, id: string)
    ensures ById(ps, id).Some? ==> ById(ps, id).value in ps && ById(ps, id).value.id == id
    ensures ById(ps, id).None? ==> forall p :: p in ps ==> p.id != id
  {
    if ps != [] {
      ByIdFinds(ps[1..], id);
      assert ps == [ps[0]] + ps[1..];
    }
  }

  lemma TwoIdsAtOneKey(ids: seq<string>, a: string, b: string)
    requires a in ids && b in ids && a != b
    ensures |ids| > 1
  {
  }

  predicate DistinctIds(ps: seq<Provider>) { forall j, k :: 0 <= j < k < |ps| ==> ps[j].id != ps[k].id }

  /** A provider is refused for its key exactly when another provider, of whatever type, has the same key. */
  lemma CollidesIffShared(ps: seq<Provider>, id: string)
    requires DistinctIds(ps) && HasId(ps, id)
    ensures Collides(ps, id) <==> exists q :: q in ps && q.id != id && SecretEnvKey(q.id) == SecretEnvKey(id)
  {
    var key := SecretEnvKey(id);
    IdsAtAre(ps, key, id);
    if |IdsAt(ps, key)| > 1 {
      IdsAtAreDistinct(ps, key);
      var other := if IdsAt(ps, key)[0] == id then IdsAt(ps, key)[1] else IdsAt(ps, key)[0];
      IdIsAt(ps, key, other);
    }
    if q :| q in ps && q.id != id && SecretEnvKey(q.id) == key {
      IdsAtAre(ps, key, q.id);
      TwoIdsAtOneKey(IdsAt(ps, key), id, q.id);
    }
  }

  lemma IdIsAt(ps: seq<Provider>, key: string, id: string)
    requires id in IdsAt(ps, key)
    ensures exists q :: q in ps && q.id == id && SecretEnvKey(q.id) == key
  {
    IdsAtAre(ps, key, id);
  }

  lemma {:induction false} IdsAtAreDistinct(ps: seq<Provider>, key: string)
    requires DistinctIds(ps)
    ensures forall j, k :: 0 <= j < k < |IdsAt(ps, key)| ==> IdsAt(ps, key)[j] != IdsAt(ps, key)[k]
  {
    if ps != [] {
      var init, last := ps[..|ps| - 1], ps[|ps| - 1];
      IdsAtAreDistinct(init, key);
      IdsAtAre(init, key, last.id);
      assert last.id !in IdsAt(init, key);
    }
  }

  /** The default provider's key is no other provider's key. */
  lemma DefaultKeyIsItsOwn(id: string)
    requires id != DEFAULT_PROVIDER_ID
    ensures SecretKey(id) != SecretKey(DEFAULT_PROVIDER_ID)
  {
    assert |SecretKey(id)| >= |SECRET_KEY_PREFIX|;
  }

  /** Two providers that both obtain settings never read the same key. */
  lemma ClientsNeverShareASecretKey(d: Deployment, a: string, b: string)
    requires a != b && SettingsFor(d, a).Some? && SettingsFor(d, b).Some?
    ensures SecretKey(a) != SecretKey(b)
    ensures d.secretAt(SecretKey(a)) == Some(SettingsFor(d, a).value.clientSecret)
  {
    if a == DEFAULT_PROVIDER_ID {
      DefaultKeyIsItsOwn(b);
    } else if b == DEFAULT_PROVIDER_ID {
      DefaultKeyIsItsOwn(a);
    } else {
      ByIdFinds(d.providers, a);
      ByIdFinds(d.providers, b);
      IdsAtAre(d.providers, SecretKey(a), a);
      IdsAtAre(d.providers, SecretKey(b), b);
      if SecretKey(a) == SecretKey(b) {
        TwoIdsAtOneKey(IdsAt(d.providers, SecretKey(a)), a, b);
      }
    }
  }

  /** With what the loader returns, settings only ever come from an OIDC provider of the registry: the
      flat fallback is for a legacy registry without its default provider, which the loader never makes. */
  lemma SettingsComeFromTheRegistry(d: Deployment, flat: Flat, id: string)
    requires d.source.Legacy? ==> d.providers == [LegacyProvider(flat)]
    requires SettingsFor(d, id).Some?
    ensures exists p :: p in d.providers && p.id == id && p.ptype.Oidc?
  {
    ByIdFinds(d.providers, id);
    if d.source.Legacy? {
      assert LegacyProvider(flat) in d.providers;
    }
  }

  // ---------------------------------------------------------------------------------------------
  // The key itself
  // ---------------------------------------------------------------------------------------------

  /** A key is made of A-Z, 0-9 and underscores, and an id adds no two underscores in a row. */
  lemma {:induction false} CollapsedNamesAreLegal(s: string)
    ensures forall i :: 0 <= i < |Collapse(s)| ==> 'A' <= Collapse(s)[i] <= 'Z' || '0' <= Collapse(s)[i] <= '9' || Collapse(s)[i] == '_'
    ensures forall i :: 0 <= i < |Collapse(s)| - 1 ==> Collapse(s)[i] != '_' || Collapse(s)[i + 1] != '_'
    ensures s != "" && Plain(s[0]) ==> Collapse(s) != "" && Plain(Collapse(s)[0])
    ensures Collapse(s) == "" <==> s == ""
    decreases |s|
  {
    if s != "" {
      CollapsedNamesAreLegal(if Plain(s[0]) then s[1..] else DropPunctuation(s[1..]));
    }
  }

  /** The text between the runs of punctuation; the first or last is empty when punctuation begins or
      ends the text. */
  function Words(s: string): (words: seq<string>)
    ensures words != []
    decreases |s|
  {
    if s == "" then [""]
    else if Plain(s[0]) then
      var rest := Words(s[1..]);
      [[s[0]] + rest[0]] + rest[1..]
    else [""] + Words(DropPunctuation(s[1..]))
  }

  /** Two ids share a key exactly when they consist of the same words, letter case and the kind and
      amount of punctuation between them aside. */
  lemma KeysAreEqualIffWordsAre(a: string, b: string)
    ensures SecretEnvKey(a) == SecretEnvKey(b) <==> Words(Upper(a)) == Words(Upper(b))
  {
    assert SecretEnvKey(a)[|SECRET_KEY_PREFIX|..] == Collapse(Upper(a));
    assert SecretEnvKey(b)[|SECRET_KEY_PREFIX|..] == Collapse(Upper(b));
    CollapseKeepsTheWords(Upper(a), Upper(b));
  }

  lemma {:induction false} CollapseKeepsTheWords(a: string, b: string)
    ensures Collapse(a) == Collapse(b) <==> Words(a) == Words(b)
    decreases |a|
  {
    CollapsedNamesAreLegal(a);
    CollapsedNamesAreLegal(b);
    if a != "" && b != "" && Plain(a[0]) == Plain(b[0]) {
      if Plain(a[0]) {
        CollapseKeepsTheWords(a[1..], b[1..]);
        PlainStartsCompare(a, b);
      } else {
        CollapseKeepsTheWords(DropPunctuation(a[1..]), DropPunctuation(b[1..]));
        PunctuationStartsCompare(a, b);
      }
    } else if a != "" && b != "" {
      assert Collapse(a)[0] != Collapse(b)[0];
      assert Words(a)[0] != Words(b)[0];
    } else {
      OnlyNothingIsOneEmptyWord(a);
      OnlyNothingIsOneEmptyWord(b);
    }
  }

  lemma OnlyNothingIsOneEmptyWord(s: string)
    ensures Words(s) == [""] <==> s == ""
  {
    if s != "" {
      if Plain(s[0]) {
        assert Words(s)[0] != "";
      } else {
        assert |Words(s)| > 1;
      }
    }
  }

  lemma PlainStartsCompare(a: string, b: string)
    requires a != "" && b != "" && Plain(a[0]) && Plain(b[0])
    ensures Collapse(a) == Collapse(b) <==> a[0] == b[0] && Collapse(a[1..]) == Collapse(b[1..])
    ensures Words(a) == Words(b) <==> a[0] == b[0] && Words(a[1..]) == Words(b[1..])
  {
    assert Collapse(a)[0] == a[0] && Collapse(a)[1..] == Collapse(a[1..]);
    assert Collapse(b)[0] == b[0] && Collapse(b)[1..] == Collapse(b[1..]);
    var u, v := Words(a[1..]), Words(b[1..]);
    assert Words(a)[0][0] == a[0] && Words(a)[0][1..] == u[0] && Words(a)[1..] == u[1..] && u == [u[0]] + u[1..];
    assert Words(b)[0][0] == b[0] && Words(b)[0][1..] == v[0] && Words(b)[1..] == v[1..] && v == [v[0]] + v[1..];
  }

  lemma PunctuationStartsCompare(a: string, b: string)
    requires a != "" && b != "" && !Plain(a[0]) && !Plain(b[0])
    ensures Collapse(a) == Collapse(b) <==> Collapse(DropPunctuation(a[1..])) == Collapse(DropPunctuation(b[1..]))
    ensures Words(a) == Words(b) <==> Words(DropPunctuation(a[1..])) == Words(DropPunctuation(b[1..]))
  {
    assert Collapse(a)[1..] == Collapse(DropPunctuation(a[1..])) && Collapse(b)[1..] == Collapse(DropPunctuation(b[1..]));
    assert Words(a)[1..] == Words(DropPunctuation(a[1..])) && Words(b)[1..] == Words(DropPunctuation(b[1..]));
  }

  /** A provider of a loaded registry is refused for its key exactly when another one's id has the same
      words; neither then obtains settings. */
  lemma RefusedIffAnotherHasTheSameWords(d: Deployment, id: string)
    requires DistinctIds(d.providers) && HasId(d.providers, id)
    ensures Collides(d.providers, id) <==> exists q :: q in d.providers && q.id != id && Words(Upper(q.id)) == Words(Upper(id))
    ensures forall q :: q in d.providers && q.id != id && Words(Upper(q.id)) == Words(Upper(id)) ==>
              SettingsFor(d, id).None? && SettingsFor(d, q.id).None?
  {
    CollidesIffShared(d.providers, id);
    forall q | q in d.providers
      ensures SecretEnvKey(q.id) == SecretEnvKey(id) <==> Words(Upper(q.id)) == Words(Upper(id))
    {
      KeysAreEqualIffWordsAre(q.id, id);
    }
    forall q | q in d.providers && q.id != id && Words(Upper(q.id)) == Words(Upper(id))
      ensures Collides(d.providers, id) && Collides(d.providers, q.id)
    {
      CollidesIffShared(d.providers, q.id);
    }
  }

  /** The words with single underscores between them. */
  function Joined(words: seq<string>): (r: string)
    requires words != []
  {
    if |words| == 1 then words[0] else words[0] + "_" + Joined(words[1..])
  }

  /** The capitals and digits of a text, in order. */
  function OnlyPlain(s: string): (r: string) {
    if s == "" then "" else (if 'A' <= s[0] <= 'Z' || '0' <= s[0] <= '9' then [s[0]] else []) + OnlyPlain(s[1..])
  }

  function Together(words: seq<string>): (r: string) { if words == [] then "" else words[0] + Together(words[1..]) }

  /** A derived key is the prefix and the id's words, joined by underscores; the words are all its
      capitals and digits, in order, once letters are folded. */
  lemma KeysAreTheWordsJoined(id: string)
    ensures SecretEnvKey(id) == "OIDC_CLIENT_SECRET_" + Joined(Words(Upper(id)))
    ensures Together(Words(Upper(id))) == OnlyPlain(Upper(id))
  {
    CollapseJoinsTheWords(Upper(id));
  }

  lemma {:induction false} CollapseJoinsTheWords(s: string)
    ensures Collapse(s) == Joined(Words(s)) && Together(Words(s)) == OnlyPlain(s)
    decreases |s|
  {
    if s != "" {
      if Plain(s[0]) {
        CollapseJoinsTheWords(s[1..]);
        LongerFirstWord(s[0], Words(s[1..]));
      } else {
        CollapseJoinsTheWords(DropPunctuation(s[1..]));
        DroppedIsNotPlain(s[1..]);
        var rest := Words(DropPunctuation(s[1..]));
        assert ([""] + rest)[1..] == rest;
        assert "" + "_" + Joined(rest) == "_" + Joined(rest);
        assert "" + Together(rest) == Together(rest);
      }
    }
  }

  lemma LongerFirstWord(c: char, words: seq<string>)
    requires words != []
    ensures var longer := [[c] + words[0]] + words[1..];
            Joined(longer) == [c] + Joined(words) && Together(longer) == [c] + Together(words)
  {
    var longer := [[c] + words[0]] + words[1..];
    assert longer[1..] == words[1..];
    assert ([c] + words[0]) + Together(words[1..]) == [c] + (words[0] + Together(words[1..]));
    if |words| > 1 {
      assert ([c] + words[0]) + "_" + Joined(words[1..]) == [c] + (words[0] + "_" + Joined(words[1..]));
    }
  }

  lemma {:induction false} DroppedIsNotPlain(s: string)
    ensures OnlyPlain(DropPunctuation(s)) == OnlyPlain(s)
  {
    if s != "" && !Plain(s[0]) {
      DroppedIsNotPlain(s[1..]);
    }
  }

  /** The value a client setting takes: the provider's own, or for the default provider without one the
      flat setting. Blank is no value. */
  predicate Takes(own: Option<string>, flat: Option<string>, id: string, v: string) {
    && v != ""
    && (own == Some(v) || ((own == None || own == Some("")) && id == "default" && flat == Some(v)))
  }

  /** What a provider of a loaded registry is registered with: nothing unless it is an OIDC provider whose
      words no other provider has; its own client id and metadata address, or the flat ones for the
      default provider; and the secret at its own key, which for the default provider is the flat one. */
  lemma SettingsAreItsOwn(d: Deployment, p: Provider, r: Settings)
    requires DistinctIds(d.providers) && p in d.providers
    ensures SettingsFor(d, p.id) == Some(r) <==>
              && p.ptype == Oidc
              && (forall q :: q in d.providers && q.id != p.id ==> Words(Upper(q.id)) != Words(Upper(p.id)))
              && Takes(p.clientId, d.flatClientId, p.id, r.clientId)
              && Takes(p.discoveryUrl, d.flatDiscoveryUrl, p.id, r.metadataUrl)
              && r.clientSecret != ""
              && d.secretAt(if p.id == "default" then "OIDC_CLIENT_SECRET" else "OIDC_CLIENT_SECRET_" + Joined(Words(Upper(p.id)))) == Some(r.clientSecret)
  {
    RefusedIffAnotherHasTheSameWords(d, p.id);
    TheProviderIsFound(d.providers, p);
    SecretKeyIs(p.id);
    AssembledFrom(p.clientId, d.flatClientId, d.secretAt(SecretKey(p.id)), p.discoveryUrl, d.flatDiscoveryUrl, p.id, r);
  }

  lemma TheProviderIsFound(ps: seq<Provider>, p: Provider)
    requires DistinctIds(ps) && p in ps
    ensures ById(ps, p.id) == Some(p) && HasId(ps, p.id)
  {
    ByIdFinds(ps, p.id);
    var i :| 0 <= i < |ps| && ps[i] == p;
    var j :| 0 <= j < |ps| && ps[j] == ById(ps, p.id).value;
    assert i == j;
  }

  lemma SecretKeyIs(id: string)
    ensures SecretKey(id) == if id == "default" then "OIDC_CLIENT_SECRET" else "OIDC_CLIENT_SECRET_" + Joined(Words(Upper(id)))
  {
    KeysAreTheWordsJoined(id);
  }

  lemma AssembledFrom(ownId: Option<string>, flatId: Option<string>, secret: Option<string>, ownUrl: Option<string>, flatUrl: Option<string>,
                      id: string, r: Settings)
    ensures Assemble(OrFlat(ownId, flatId, id), secret, OrFlat(ownUrl, flatUrl, id)) == Some(r) <==>
              && Takes(ownId, flatId, id, r.clientId) && Takes(ownUrl, flatUrl, id, r.metadataUrl)
              && r.clientSecret != "" && secret == Some(r.clientSecret)
  {
  }
}
