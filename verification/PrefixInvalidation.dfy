/**
 Prefix invalidation: the Redis cache backend (mlflow_oidc_auth/cache/redis_backend.py) against the
 in-process one (mlflow_oidc_auth/cache/local_backend.py).

 The local backend drops the keys that start with a prefix.  The Redis backend scans for a glob
 pattern, so the prefix is escaped first; the namespace in front of it is not.
 */
module PrefixInvalidation {
  import opened Wrappers
  import opened Text

  const METACHARS := ['\\', '*', '?', '[', ']']

  predicate StartsWith(key: string, prefix: string) {
    |prefix| <= |key| && key[..|prefix|] == prefix
  }

  // ---------------------------------------------------------------------------------------------
  // Escaping
  // ---------------------------------------------------------------------------------------------

  /** `s.replace(c, "\\" + c)`. */
  function Replace(s: string, c: char): (r: string) {
    if s == "" then "" else (if s[0] == c then ['\\', c] else [s[0]]) + Replace(s[1..], c)
  }

  /** Escapes every character of `cs` in one pass. */
  function EscapeAll(s: string, cs: seq<char>): (r: string) {
    if s == "" then "" else (if s[0] in cs then ['\\', s[0]] else [s[0]]) + EscapeAll(s[1..], cs)
  }

  lemma {:induction false} ReplaceAppend(a: string, b: string, c: char)
    ensures Replace(a + b, c) == Replace(a, c) + Replace(b, c)
  {
    if a == "" {
      assert a + b == b;
    } else {
      ReplaceAppend(a[1..], b, c);
      assert (a + b)[1..] == a[1..] + b;
      JoinsAssociate(if a[0] == c then ['\\', c] else [a[0]], Replace(a[1..], c), Replace(b, c));
    }
  }

  /** One more replacement extends the set of escaped characters, provided it does not touch the
      backslashes the earlier ones inserted. */
  lemma {:induction false} ReplaceExtendsEscaping(s: string, cs: seq<char>, c: char)
    requires c !in cs && (cs == [] || c != '\\')
    ensures Replace(EscapeAll(s, cs), c) == EscapeAll(s, cs + [c])
  {
    if s != "" {
      ReplaceExtendsEscaping(s[1..], cs, c);
      var head := if s[0] in cs then ['\\', s[0]] else [s[0]];
      ReplaceAppend(head, EscapeAll(s[1..], cs), c);
      if s[0] in cs {
        assert head[1..] == [s[0]] && [s[0]][1..] == "";
        assert Replace(head, c) == head;
      } else {
        assert head[1..] == "";
        assert Replace(head, c) == if s[0] == c then ['\\', c] else head;
      }
    }
  }

  method EscapeGlob(value: string) returns (escaped: string)
    ensures escaped == EscapeAll(value, METACHARS)
  {
    escaped := value;
    NothingToEscape(value);
    for i := 0 to |METACHARS|
      invariant escaped == EscapeAll(value, METACHARS[..i])
    {
      ReplaceExtendsEscaping(value, METACHARS[..i], METACHARS[i]);
      assert METACHARS[..i + 1] == METACHARS[..i] + [METACHARS[i]];
      escaped := Replace(escaped, METACHARS[i]);
    }
    assert METACHARS[..|METACHARS|] == METACHARS;
  }

  lemma {:induction false} NothingToEscape(s: string)
    ensures EscapeAll(s, METACHARS[..0]) == s
  {
    if s != "" {
      NothingToEscape(s[1..]);
    }
  }

  // ---------------------------------------------------------------------------------------------
  // Glob matching, as the Redis server does it
  // ---------------------------------------------------------------------------------------------

  /** The pattern after a character class whose members start at `p`; an unclosed class runs to the end. */
  function ClassRest(p: string): (rest: string)
    ensures |rest| <= |p|
  {
    if p == "" then ""
    else if |p| >= 2 && p[0] == '\\' then ClassRest(p[2..])
    else if p[0] == ']' then p[1..]
    else if |p| >= 3 && p[1] == '-' then ClassRest(p[3..])
    else ClassRest(p[1..])
  }

  predicate ClassHas(p: string, c: char) {
    if p == "" then false
    else if |p| >= 2 && p[0] == '\\' then p[1] == c || ClassHas(p[2..], c)
    else if p[0] == ']' then false
    else if |p| >= 3 && p[1] == '-' then p[0] <= c <= p[2] || p[2] <= c <= p[0] || ClassHas(p[3..], c)
    else p[0] == c || ClassHas(p[1..], c)
  }

  function Members(p: string): (r: string) {
    if p != "" && p[0] == '^' then p[1..] else p
  }

  predicate ClassMatches(p: string, c: char) {
    if p != "" && p[0] == '^' then !ClassHas(Members(p), c) else ClassHas(Members(p), c)
  }

  predicate Glob(p: string, key: string)
    decreases |p|, |key|
  {
    if p == "" then key == ""
    else if p[0] == '*' then Glob(p[1..], key) || (key != "" && Glob(p, key[1..]))
    else if key == "" then false
    else if p[0] == '?' then Glob(p[1..], key[1..])
    else if p[0] == '[' then ClassMatches(p[1..], key[0]) && Glob(ClassRest(Members(p[1..])), key[1..])
    else if p[0] == '\\' && |p| >= 2 then p[1] == key[0] && Glob(p[2..], key[1..])
    else p[0] == key[0] && Glob(p[1..], key[1..])
  }

  lemma {:induction false} StarMatchesAll(key: string)
    ensures Glob("*", key)
  {
    assert "*"[1..] == "";
    if key != "" {
      StarMatchesAll(key[1..]);
    }
  }

  /** An escaped text followed by a star matches exactly the keys that start with the text. */
  lemma {:induction false} EscapedTextIsLiteral(text: string, key: string)
    ensures Glob(EscapeAll(text, METACHARS) + "*", key) <==> StartsWith(key, text)
  {
    if text == "" {
      assert EscapeAll(text, METACHARS) + "*" == "*";
      StarMatchesAll(key);
    } else {
      var rest := EscapeAll(text[1..], METACHARS) + "*";
      var p := EscapeAll(text, METACHARS) + "*";
      if text[0] in METACHARS {
        assert p == ['\\', text[0]] + rest;
        assert p[2..] == rest;
      } else {
        assert p == [text[0]] + rest;
        assert p[1..] == rest;
        assert text[0] !in ['\\', '*', '?', '[', ']'];
      }
      if key != "" {
        EscapedTextIsLiteral(text[1..], key[1..]);
        assert StartsWith(key, text) <==> key[0] == text[0] && StartsWith(key[1..], text[1..]) by { StartsWithStep(key, text); }
      }
    }
  }

  lemma StartsWithStep(key: string, prefix: string)
    requires key != "" && prefix != ""
    ensures StartsWith(key, prefix) <==> key[0] == prefix[0] && StartsWith(key[1..], prefix[1..])
  {
    if |prefix| <= |key| {
      assert key[..|prefix|] == [key[0]] + key[1..][..|prefix| - 1];
      assert prefix == [prefix[0]] + prefix[1..];
    }
  }

  /** A text the matcher takes character by character. */
  predicate Clean(s: string) {
    forall i :: 0 <= i < |s| ==> s[i] != '\\' && s[i] != '*' && s[i] != '?' && s[i] != '['
  }

  lemma {:induction false} CleanPrefixIsLiteral(prefix: string, p: string, key: string)
    requires Clean(prefix)
    ensures Glob(prefix + p, key) <==> StartsWith(key, prefix) && Glob(p, key[|prefix|..])
  {
    if prefix == "" {
      assert prefix + p == p && key[0..] == key;
    } else {
      assert (prefix + p)[1..] == prefix[1..] + p;
      assert (prefix + p)[0] == prefix[0];
      if key != "" {
        CleanPrefixIsLiteral(prefix[1..], p, key[1..]);
        StartsWithStep(key, prefix);
        if |prefix| <= |key| {
          assert key[|prefix|..] == key[1..][|prefix| - 1..];
        }
      }
    }
  }

  /** The pattern `delete_prefix` scans for. */
  function PrefixPattern(namespace: string, p: string): (r: string) { namespace + EscapeAll(p, METACHARS) + "*" }

  lemma CleanNamespaceMatchesExactly(namespace: string, p: string, key: string)
    requires Clean(namespace)
    ensures Glob(PrefixPattern(namespace, p), key) <==> StartsWith(key, namespace + p)
  {
    assert PrefixPattern(namespace, p) == namespace + (EscapeAll(p, METACHARS) + "*");
    CleanPrefixIsLiteral(namespace, EscapeAll(p, METACHARS) + "*", key);
    if StartsWith(key, namespace) {
      EscapedTextIsLiteral(p, key[|namespace|..]);
      if |namespace + p| <= |key| {
        assert key[..|namespace + p|] == key[..|namespace|] + key[|namespace|..][..|p|];
      }
    }
    if StartsWith(key, namespace + p) {
      assert key[..|namespace|] == (namespace + p)[..|namespace|];
      assert key[|namespace|..][..|p|] == (namespace + p)[|namespace|..];
    }
  }

  // ---------------------------------------------------------------------------------------------
  // An unclean namespace always goes wrong
  // ---------------------------------------------------------------------------------------------

  /** How many key characters a pattern takes at least: one for each of its elements but the stars. */
  function Width(p: string): (r: nat)
    decreases |p|
  {
    if p == "" then 0
    else if p[0] == '*' then Width(p[1..])
    else if p[0] == '[' then 1 + Width(ClassRest(Members(p[1..])))
    else if p[0] == '\\' && |p| >= 2 then 1 + Width(p[2..])
    else 1 + Width(p[1..])
  }

  /** Whether some star of the pattern is a wildcard. */
  predicate HasStar(p: string)
    decreases |p|
  {
    if p == "" then false
    else if p[0] == '*' then true
    else if p[0] == '[' then HasStar(ClassRest(Members(p[1..])))
    else if p[0] == '\\' && |p| >= 2 then HasStar(p[2..])
    else HasStar(p[1..])
  }

  lemma {:induction false} WithoutAStarLengthsAreFixed(p: string, key: string)
    requires !HasStar(p) && Glob(p, key)
    ensures |key| == Width(p)
    decreases |p|
  {
    if p != "" {
      WithoutAStarLengthsAreFixed(
        if p[0] == '[' then ClassRest(Members(p[1..])) else if p[0] == '\\' && |p| >= 2 then p[2..] else p[1..], key[1..]);
    }
  }

  /** A pattern that matches anything matches some key of its width. */
  lemma {:induction false} ShortestMatch(p: string, key: string) returns (short: string)
    requires Glob(p, key)
    ensures Glob(p, short) && |short| == Width(p)
    decreases |p|, |key|
  {
    if p == "" {
      short := "";
    } else if p[0] == '*' {
      if Glob(p[1..], key) {
        short := ShortestMatch(p[1..], key);
      } else {
        short := ShortestMatch(p, key[1..]);
      }
    } else {
      var rest := if p[0] == '[' then ClassRest(Members(p[1..])) else if p[0] == '\\' && |p| >= 2 then p[2..] else p[1..];
      var tail := ShortestMatch(rest, key[1..]);
      short := [key[0]] + tail;
      assert short[1..] == tail && short[0] == key[0];
    }
  }

  /** A pattern ending in a star is wider than the keys it needs. */
  lemma {:induction false} FinalStarIsNotWide(s: string)
    ensures Width(s + "*") <= |s|
    decreases |s|
  {
    var p := s + "*";
    if s != "" {
      var n := if p[0] == '[' then |p| - |ClassRest(Members(p[1..]))| else if p[0] == '\\' then 2 else 1;
      if n <= |s| {
        assert p[n..] == s[n..] + "*";
        FinalStarIsNotWide(s[n..]);
        assert p[0] == '[' ==> ClassRest(Members(p[1..])) == p[n..] by { RestIsSuffix(p); }
      } else {
        assert p[0] == '[' ==> ClassRest(Members(p[1..])) == "";
        assert p[0] == '\\' ==> p[2..] == "";
      }
    } else {
      assert p == "*" && p[1..] == "";
    }
  }

  lemma {:induction false} ClassRestIsSuffix(p: string)
    ensures ClassRest(p) == p[|p| - |ClassRest(p)|..]
    decreases |p|
  {
    if p != "" && p[0] != ']' {
      ClassRestIsSuffix(if |p| >= 2 && p[0] == '\\' then p[2..] else if |p| >= 3 && p[1] == '-' then p[3..] else p[1..]);
    }
  }

  lemma RestIsSuffix(p: string)
    requires p != ""
    ensures var rest := ClassRest(Members(p[1..])); |rest| < |p| && rest == p[|p| - |rest|..]
  {
    ClassRestIsSuffix(Members(p[1..]));
  }

  /** An escape, a star or a class before the final star makes the shortest match shorter than the text. */
  lemma {:induction false} SpecialsNarrow(s: string)
    requires HasStar(s + "*") && exists i :: 0 <= i < |s| && (s[i] == '\\' || s[i] == '*' || s[i] == '[')
    ensures Width(s + "*") < |s|
    decreases |s|
  {
    var p := s + "*";
    var n := if p[0] == '[' then |p| - |ClassRest(Members(p[1..]))| else if p[0] == '\\' then 2 else 1;
    if p[0] == '[' {
      RestIsSuffix(p);
    }
    assert p[n..] == s[n..] + "*";
    if p[0] == '[' || p[0] == '\\' || p[0] == '*' {
      assert p[0] == '[' ==> n >= 2 by { if p[0] == '[' { ClassesTakeTwo(p); } }
      FinalStarIsNotWide(s[n..]);
    } else {
      var i :| 0 <= i < |s| && (s[i] == '\\' || s[i] == '*' || s[i] == '[');
      assert s[1..][i - 1] == s[i];
      SpecialsNarrow(s[1..]);
    }
  }

  lemma ClassesTakeTwo(p: string)
    requires p != "" && p[0] == '[' && p[1..] != ""
    ensures |ClassRest(Members(p[1..]))| <= |p| - 2
  {
    var m := Members(p[1..]);
    if m != "" {
      assert |ClassRest(m)| < |m|;
    }
  }

  /** Replacing a question mark by another character gives a key the pattern still matches. */
  lemma {:induction false} QuestionMarkMatchesAnother(s: string, i: nat, c: char)
    requires i < |s| && s[i] == '?' && forall j :: 0 <= j < |s| ==> s[j] != '\\' && s[j] != '*' && s[j] != '['
    ensures Glob(s + "*", s[i := c])
  {
    var key := s[i := c];
    var p := s + "*";
    assert p[1..] == s[1..] + "*" && p[0] == s[0];
    if i == 0 {
      assert key[1..] == s[1..];
      LettersMatchThemselves(s[1..]);
    } else {
      assert key[1..] == s[1..][i - 1 := c];
      QuestionMarkMatchesAnother(s[1..], i - 1, c);
    }
  }

  lemma {:induction false} LettersMatchThemselves(s: string)
    requires forall j :: 0 <= j < |s| ==> s[j] != '\\' && s[j] != '*' && s[j] != '['
    ensures Glob(s + "*", s)
  {
    if s == "" {
      assert s + "*" == "*";
      StarMatchesAll("");
    } else {
      assert (s + "*")[1..] == s[1..] + "*" && (s + "*")[0] == s[0];
      LettersMatchThemselves(s[1..]);
    }
  }

  /** For a namespace with a metacharacter the pattern for the whole namespace is wrong about some key. */
  lemma UncleanNamespaceIsWrong(namespace: string) returns (key: string)
    requires !Clean(namespace)
    ensures Glob(namespace + "*", key) != StartsWith(key, namespace)
  {
    var p := namespace + "*";
    if !HasStar(p) {
      key := namespace;
      if Glob(p, namespace) {
        WithoutAStarLengthsAreFixed(p, namespace);
        key := namespace + "x";
        assert key[..|namespace|] == namespace;
        if Glob(p, key) {
          WithoutAStarLengthsAreFixed(p, key);
        }
      } else {
        assert namespace[..|namespace|] == namespace;
      }
    } else if exists i :: 0 <= i < |namespace| && (namespace[i] == '\\' || namespace[i] == '*' || namespace[i] == '[') {
      SpecialsNarrow(namespace);
      key := namespace;
      if Glob(p, namespace) {
        key := ShortestMatch(p, namespace);
      } else {
        assert namespace[..|namespace|] == namespace;
      }
    } else {
      var i :| 0 <= i < |namespace| && namespace[i] == '?';
      QuestionMarkMatchesAnother(namespace, i, 'x');
      key := namespace[i := 'x'];
      assert key[i] != namespace[i];
      assert key[..|namespace|] == key;
    }
  }

  /** Deletion by pattern is deletion by literal prefix, for every prefix and every key, if and only if
      the namespace is free of metacharacters. */
  lemma PatternIsLiteralIffNamespaceClean(namespace: string)
    ensures (forall p, key :: Glob(PrefixPattern(namespace, p), key) <==> StartsWith(key, namespace + p)) <==> Clean(namespace)
  {
    if Clean(namespace) {
      forall p, key ensures Glob(PrefixPattern(namespace, p), key) <==> StartsWith(key, namespace + p) {
        CleanNamespaceMatchesExactly(namespace, p, key);
      }
    } else {
      var key := UncleanNamespaceIsWrong(namespace);
      assert PrefixPattern(namespace, "") == namespace + "*";
      assert namespace + "" == namespace;
      assert Glob(PrefixPattern(namespace, ""), key) != StartsWith(key, namespace + "");
    }
  }

  // ---------------------------------------------------------------------------------------------
  // The two backends
  // ---------------------------------------------------------------------------------------------

  type Store = map<string, string>

  /** The entries one namespace holds on a shared server. */
  ghost function View(store: Store, namespace: string): (r: imap<string, string>) {
    imap k | namespace + k in store :: store[namespace + k]
  }

  function Purge(store: Store, pattern: string): (r: Store) {
    map k | k in store && !Glob(pattern, k) :: store[k]
  }

  class LocalCache {
    var cache: Store

    constructor ()
      ensures cache == map[]
    {
      cache := map[];
    }

    method DeletePrefix(prefix: string)
      modifies this
      ensures forall k :: k in cache <==> k in old(cache) && !StartsWith(k, prefix)
      ensures forall k :: k in cache ==> cache[k] == old(cache)[k]
    {
      var keys := set k | k in cache && StartsWith(k, prefix);
      ghost var before := cache;
      while keys != {}
        invariant forall k :: k in cache <==> k in before && !(StartsWith(k, prefix) && k !in keys)
        invariant forall k :: k in cache ==> cache[k] == before[k]
        invariant forall k :: k in keys ==> k in before && StartsWith(k, prefix)
        decreases keys
      {
        var k :| k in keys;
        cache := cache - {k};
        keys := keys - {k};
      }
    }
  }

  class RedisServer {
    var store: Store

    constructor ()
      ensures store == map[]
    {
      store := map[];
    }

    /** The scan loop. `pages` are the replies of the cursor iteration: a full iteration returns every
        matching key present throughout, possibly more than once, and nothing that does not match. */
    method ScanDelete(pattern: string, pages: seq<seq<string>>)
      requires forall k :: k in store && Glob(pattern, k) ==> exists i :: 0 <= i < |pages| && k in pages[i]
      requires forall i, k :: 0 <= i < |pages| && k in pages[i] ==> Glob(pattern, k)
      modifies this
      ensures store == Purge(old(store), pattern)
    {
      ghost var before := store;
      for cursor := 0 to |pages|
        invariant forall k :: k in store ==> k in before && store[k] == before[k]
        invariant forall k :: k in before && k !in store ==> Glob(pattern, k)
        invariant forall i, k :: 0 <= i < cursor && k in pages[i] ==> k !in store
      {
        var page := pages[cursor];
        if page != [] {
          var doomed := set k | k in page;
          store := store - doomed;
        }
      }
    }

    /** `delete_prefix` of the backend whose namespace prefix is `namespace`. */
    method DeletePrefix(namespace: string, prefix: string, pages: seq<seq<string>>)
      requires forall k :: k in store && Glob(PrefixPattern(namespace, prefix), k) ==> exists i :: 0 <= i < |pages| && k in pages[i]
      requires forall i, k :: 0 <= i < |pages| && k in pages[i] ==> Glob(PrefixPattern(namespace, prefix), k)
      modifies this
      ensures store == Purge(old(store), PrefixPattern(namespace, prefix))
    {
      var escaped := EscapeGlob(prefix);
      var pattern := namespace + escaped + "*";
      assert pattern == PrefixPattern(namespace, prefix);
      ScanDelete(pattern, pages);
    }
  }

  /** In a metacharacter-free namespace, deleting a prefix on the server leaves the namespace with
      exactly the entries the local backend would keep. */
  lemma BackendsAgree(store: Store, namespace: string, prefix: string)
    requires Clean(namespace)
    ensures View(Purge(store, PrefixPattern(namespace, prefix)), namespace)
         == imap k | k in View(store, namespace) && !StartsWith(k, prefix) :: View(store, namespace)[k]
  {
    forall k ensures Glob(PrefixPattern(namespace, prefix), namespace + k) <==> StartsWith(k, prefix) {
      CleanNamespaceMatchesExactly(namespace, prefix, namespace + k);
      if |prefix| <= |k| {
        assert (namespace + k)[..|namespace + prefix|] == namespace + k[..|prefix|];
      }
      if StartsWith(namespace + k, namespace + prefix) {
        assert k[..|prefix|] == (namespace + prefix)[|namespace|..];
      }
    }
  }

  /** The namespace prefix of one cache domain. */
  function Namespace(keyPrefix: string, domain: string): (r: string) { keyPrefix + domain + ":" }

  lemma ColonEndsTheDomain(a: string, b: string, rest: string)
    requires ':' !in a && ':' !in b
    ensures StartsWith(b + ":" + rest, a + ":") ==> a == b
  {
    var key := b + ":" + rest;
    if StartsWith(key, a + ":") {
      assert key == a + ":" + key[|a| + 1..];
      BeforeFirst(a, ':', key[|a| + 1..]);
      BeforeFirst(b, ':', rest);
    }
  }

  lemma StartsWithAfter(front: string, tail: string, head: string, more: string)
    ensures StartsWith(front + tail, front + head + more) ==> StartsWith(tail, head)
  {
    if StartsWith(front + tail, front + head + more) {
      var n := |front| + |head|;
      assert (front + tail)[..|front + head + more|][..n] == (front + head + more)[..n] == front + head;
      assert (front + tail)[|front|..n] == tail[..|head|];
      assert (front + head)[|front|..n] == head;
    }
  }

  /** Deleting in one domain leaves every other colon-free domain of the deployment as it was. */
  lemma OtherDomainsUntouched(store: Store, keyPrefix: string, domain: string, other: string, prefix: string)
    requires Clean(Namespace(keyPrefix, domain)) && ':' !in domain && ':' !in other && domain != other
    ensures View(Purge(store, PrefixPattern(Namespace(keyPrefix, domain), prefix)), Namespace(keyPrefix, other))
         == View(store, Namespace(keyPrefix, other))
  {
    forall k ensures !Glob(PrefixPattern(Namespace(keyPrefix, domain), prefix), Namespace(keyPrefix, other) + k) {
      CleanNamespaceMatchesExactly(Namespace(keyPrefix, domain), prefix, Namespace(keyPrefix, other) + k);
      ColonEndsTheDomain(domain, other, k);
      StartsWithAfter(keyPrefix, other + ":" + k, domain + ":", prefix);
      assert Namespace(keyPrefix, other) + k == keyPrefix + (other + ":" + k);
      assert Namespace(keyPrefix, domain) + prefix == keyPrefix + (domain + ":") + prefix;
    }
  }
}
