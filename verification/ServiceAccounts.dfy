/** Kubernetes service accounts as principals (mlflow_oidc_auth/kubernetes.py). */
module ServiceAccounts {
  import opened Wrappers
  import opened Text

  const SUBJECT_PREFIX := "system:serviceaccount:"
  const USERNAME_SUFFIX := "@serviceaccount.cluster.local"
  const MAX_LABEL_LENGTH := 63

  datatype ServiceAccount = ServiceAccount(namespace: string, name: string) {
    function Subject(): (r: string) { SUBJECT_PREFIX + namespace + ":" + name }

    function Username(): (r: string) { name + "." + namespace + USERNAME_SUFFIX }

    function Group(): (r: string) { "k8s:" + namespace }
  }

  predicate Alphanumeric(c: char) { 'a' <= c <= 'z' || '0' <= c <= '9' }

  /** [a-z0-9]([-a-z0-9]*[a-z0-9])? */
  predicate LabelShape(s: string) {
    && s != ""
    && Alphanumeric(s[0]) && Alphanumeric(s[|s| - 1])
    && forall i :: 0 <= i < |s| ==> Alphanumeric(s[i]) || s[i] == '-'
  }

  /** A Kubernetes object name. */
  predicate DnsLabel(s: string) { LabelShape(s) && |s| <= MAX_LABEL_LENGTH }

  /** A Kubernetes object name is one to 63 lower-case letters, digits and dashes, with no dash at
      either end. */
  lemma DnsLabelsAre(s: string)
    ensures DnsLabel(s) <==>
              && 1 <= |s| <= 63 && s[0] != '-' && s[|s| - 1] != '-'
              && forall c :: c in s ==> 'a' <= c <= 'z' || '0' <= c <= '9' || c == '-'
  {
    assert forall i :: 0 <= i < |s| ==> s[i] in s;
    if DnsLabel(s) {
      forall c | c in s ensures 'a' <= c <= 'z' || '0' <= c <= '9' || c == '-' {
        var i :| 0 <= i < |s| && s[i] == c;
      }
    }
  }

  /** The check as written: its pattern ends in `$`, which also matches before a final line feed. */
  predicate ValidDnsLabel(s: string) {
    && s != "" && |s| <= MAX_LABEL_LENGTH
    && (LabelShape(s) || (s[|s| - 1] == '\n' && LabelShape(s[..|s| - 1])))
  }

  function ParseServiceAccount(subject: string): (r: Option<ServiceAccount>) {
    if !(|SUBJECT_PREFIX| <= |subject| && subject[..|SUBJECT_PREFIX|] == SUBJECT_PREFIX) then None
    else
      var rest := subject[|SUBJECT_PREFIX|..];
      if Count(rest, ':') != 1 then None
      else
        var account := ServiceAccount(Before(rest, ':'), After(rest, ':'));
        if ValidDnsLabel(account.namespace) && ValidDnsLabel(account.name) then Some(account) else None
  }

  predicate NamespaceIsAllowed(namespace: string, allowlist: seq<string>) { namespace in allowlist }

  /** The account a token's subject is let in as, behind a namespace allowlist. */
  function Admitted(subject: string, allowlist: seq<string>): (r: Option<ServiceAccount>) {
    var a := ParseServiceAccount(subject);
    if a.Some? && NamespaceIsAllowed(a.value.namespace, allowlist) then a else None
  }

  /** An allowlist as the registry stores it. */
  predicate StrippedLabels(allowlist: seq<string>) {
    forall i :: 0 <= i < |allowlist| ==> ValidDnsLabel(allowlist[i]) && allowlist[i] == Strip(allowlist[i])
  }

  predicate ValidAccount(a: ServiceAccount) { ValidDnsLabel(a.namespace) && ValidDnsLabel(a.name) }

  /** Parsing accepts exactly the subjects that printing an account with valid names produces, and
      gives that account back. */
  lemma ParsingInvertsPrinting(subject: string, a: ServiceAccount)
    ensures ParseServiceAccount(subject) == Some(a) <==> ValidAccount(a) && a.Subject() == subject
  {
    if ValidAccount(a) && a.Subject() == subject {
      PrintedSubjectsParse(a);
    }
    if ParseServiceAccount(subject) == Some(a) {
      var rest := subject[|SUBJECT_PREFIX|..];
      CountSplits(rest, ':');
      assert subject == SUBJECT_PREFIX + rest;
    }
  }

  lemma PrintedSubjectsParse(a: ServiceAccount)
    requires ValidAccount(a)
    ensures ParseServiceAccount(a.Subject()) == Some(a)
  {
    var rest := a.namespace + ":" + a.name;
    assert a.Subject() == SUBJECT_PREFIX + rest;
    assert a.Subject()[..|SUBJECT_PREFIX|] == SUBJECT_PREFIX && a.Subject()[|SUBJECT_PREFIX|..] == rest;
    LabelsHaveNoSeparator(a.namespace);
    LabelsHaveNoSeparator(a.name);
    OneColon(a.namespace, a.name);
  }

  lemma LabelsHaveNoSeparator(s: string)
    requires ValidDnsLabel(s)
    ensures ':' !in s && '.' !in s
  {
    if s[|s| - 1] == '\n' {
      assert s == s[..|s| - 1] + ['\n'];
    }
  }

  lemma OneColon(a: string, b: string)
    requires ':' !in a && ':' !in b
    ensures var rest := a + ":" + b; Count(rest, ':') == 1 && Before(rest, ':') == a && After(rest, ':') == b
  {
    var rest := a + ":" + b;
    BeforeFirst(a, ':', b);
    assert rest[|a|] == ':';
    CountSplits(rest, ':');
    CountSplits(b, ':');
  }

  /** No two service accounts share a username, whatever their namespaces. */
  lemma UsernamesAreInjective(a: ServiceAccount, b: ServiceAccount)
    requires ValidAccount(a) && ValidAccount(b) && a.Username() == b.Username()
    ensures a == b
  {
    var x, y := a.namespace + USERNAME_SUFFIX, b.namespace + USERNAME_SUFFIX;
    assert a.Username() == a.name + "." + x && b.Username() == b.name + "." + y;
    LabelsHaveNoSeparator(a.name);
    LabelsHaveNoSeparator(b.name);
    BeforeFirst(a.name, '.', x);
    BeforeFirst(b.name, '.', y);
    assert |a.namespace| == |b.namespace|;
    assert x[..|a.namespace|] == a.namespace && y[..|b.namespace|] == b.namespace;
  }

  /** The check admits one name Kubernetes does not: a label with a line feed after it. */
  lemma TheCheckAdmitsATrailingLineFeed(s: string)
    ensures ValidDnsLabel("a\n") && !DnsLabel("a\n")
    ensures ValidDnsLabel(s) && !DnsLabel(s) <==> s != "" && |s| <= MAX_LABEL_LENGTH && s[|s| - 1] == '\n' && LabelShape(s[..|s| - 1])
    ensures '\n' !in s ==> (ValidDnsLabel(s) <==> DnsLabel(s))
  {
    assert "a\n"[..1] == "a";
  }

  /** Behind an allowlist of stripped names, as the registry stores it, the difference cannot show in
      the namespace: an account whose namespace is allowed lives in one Kubernetes could have. */
  lemma AllowedNamespacesAreReal(subject: string, allowlist: seq<string>)
    requires StrippedLabels(allowlist)
    ensures Admitted(subject, allowlist).Some? ==> DnsLabel(Admitted(subject, allowlist).value.namespace)
  {
    var a := ParseServiceAccount(subject);
    if a.Some? && NamespaceIsAllowed(a.value.namespace, allowlist) {
      StripTrims(a.value.namespace);
      assert IsSpace('\n');
    }
  }

  /** It can show in the name: an account no cluster could have is admitted, under a username of its own. */
  lemma ALineFeedInTheNameIsAdmitted()
    ensures var a := ServiceAccount("prod", "etl\n");
            && a.Subject() == SUBJECT_PREFIX + "prod:etl\n"
            && Admitted(a.Subject(), ["prod"]) == Some(a)
            && !DnsLabel(a.name)
            && a.Username() == "etl\n.prod" + USERNAME_SUFFIX
  {
    var a := ServiceAccount("prod", "etl\n");
    assert a.name[..3] == "etl";
    assert a.Subject() == SUBJECT_PREFIX + "prod:etl\n";
    assert a.Username() == "etl\n.prod" + USERNAME_SUFFIX;
    PrintedSubjectsParse(a);
  }

  /** An admitted account is one Kubernetes could have exactly when its subject has no line feed. */
  lemma AdmittedAccountsAreRealIffNoLineFeed(subject: string, allowlist: seq<string>)
    requires StrippedLabels(allowlist) && Admitted(subject, allowlist).Some?
    ensures var a := Admitted(subject, allowlist).value;
            DnsLabel(a.namespace) && DnsLabel(a.name) <==> '\n' !in subject
  {
    var a := Admitted(subject, allowlist).value;
    AllowedNamespacesAreReal(subject, allowlist);
    ParsingInvertsPrinting(subject, a);
    LabelsHaveNoLineFeed(a.namespace);
    TheCheckAdmitsATrailingLineFeed(a.name);
    assert '\n' in a.name ==> a.name[|a.name| - 1] == '\n' by {
      if '\n' in a.name { LabelsHaveNoLineFeed(a.name); }
    }
    assert '\n' !in SUBJECT_PREFIX;
    assert '\n' in subject <==> '\n' in a.name by {
      JoinedText(SUBJECT_PREFIX, a.namespace, a.name, '\n');
    }
    if DnsLabel(a.name) { LabelsHaveNoLineFeed(a.name); }
  }

  lemma JoinedText(a: string, b: string, c: string, x: char)
    requires x != ':'
    ensures x in a + b + ":" + c <==> x in a || x in b || x in c
  {
  }

  lemma LabelsHaveNoLineFeed(s: string)
    ensures LabelShape(s) ==> '\n' !in s
    ensures ValidDnsLabel(s) && '\n' in s ==> s[|s| - 1] == '\n'
  {
  }
}
