/**
 The request-ambiguity guard (mlflow_oidc_auth/hooks/dual_spelling_guard.py), as
 mlflow_oidc_auth/hooks/before_request.py applies it.

 MLflow builds a request message from the query string of a GET, and from the JSON body of every
 other request, where a field may be spelled two ways and the last spelling wins.  Authorization
 reads parameters through `ProtoRequestValue`.  For every request that passes both checks the two
 are proved to see the same value, whichever method carried it.
 */
module RequestGuard {
  import opened Wrappers
  import opened ProtoNames

  // ---------------------------------------------------------------------------------------------
  // Routes and the tables built from them
  // ---------------------------------------------------------------------------------------------

  /** A singular field of a request message, with the JSON spelling its descriptor declares. */
  datatype Field = Field(name: string, jsonName: string)

  /** One registered endpoint: a path, possibly with <placeholders>, and the request message it parses. */
  datatype Route = Route(path: string, methods: seq<string>, fields: seq<Field>) {
    predicate Parameterized() { '<' in path }
  }

  /** Full-match of a compiled path pattern against a concrete path: (pattern, path). */
  type FullMatch = (string, string) -> bool

  predicate Serves(fullMatch: FullMatch, r: Route, path: string, verb: string) {
    && verb in r.methods
    && if r.Parameterized() then fullMatch(r.path, path) else r.path == path
  }

  function Collidable(fields: seq<Field>): (r: seq<Field>) {
    if fields == [] then []
    else (if fields[0].name != fields[0].jsonName then [fields[0]] else []) + Collidable(fields[1..])
  }

  lemma {:induction false} CollidableFields(fields: seq<Field>)
    ensures forall f :: f in Collidable(fields) <==> f in fields && f.name != f.jsonName
  {
    if fields != [] {
      CollidableFields(fields[1..]);
      assert fields == [fields[0]] + fields[1..];
    }
  }

  /** The module-level maps of the guard, filled while the routes are registered. */
  class RouteMaps {
    var exactCollidable: map<(string, string), seq<Field>>
    var patternCollidable: seq<(string, string, seq<Field>)>
    var exactRoutes: set<(string, string)>
    var patternRoutes: seq<(string, string)>
    ghost var routes: seq<Route>

    constructor ()
      ensures Valid() && routes == []
    {
      exactCollidable, patternCollidable, exactRoutes, patternRoutes, routes := map[], [], {}, [], [];
    }

    /** Every table entry stems from a registered route, and every route left its entries. */
    ghost predicate Valid() reads this {
      Tied() && forall r, m :: r in routes && m in r.methods ==> Recorded(r, m)
    }

    ghost predicate Tied() reads this {
      && (forall k :: k in exactRoutes ==> Registered(routes, false, k.0, k.1))
      && (forall e :: e in patternRoutes ==> Registered(routes, true, e.0, e.1))
      && (forall k :: k in exactCollidable ==> RegisteredWith(routes, false, k.0, k.1, exactCollidable[k]))
      && (forall e :: e in patternCollidable ==> RegisteredWith(routes, true, e.0, e.1, e.2))
    }

    ghost predicate Recorded(r: Route, m: string) reads this {
      if r.Parameterized() then
        && (r.path, m) in patternRoutes
        && (Collidable(r.fields) != [] ==> (r.path, m, Collidable(r.fields)) in patternCollidable)
      else
        && (r.path, m) in exactRoutes
        && (Collidable(r.fields) != [] ==> (r.path, m) in exactCollidable)
    }

    method RegisterRoute(r: Route)
      requires Valid()
      modifies this
      ensures Valid() && routes == old(routes) + [r]
    {
      ghost var before := routes;
      routes := before + [r];
      assert Tied() by { RegistrationGrows(before, r); }
      var collidable := Collidable(r.fields);
      var i := 0;
      while i < |r.methods|
        invariant i <= |r.methods| && routes == before + [r] && Tied()
        invariant forall q, m :: q in before && m in q.methods ==> Recorded(q, m)
        invariant forall j :: 0 <= j < i ==> Recorded(r, r.methods[j])
      {
        RecordVerb(r, r.methods[i], collidable);
        i := i + 1;
      }
    }

    /** The loop body of a registration: one verb's entries. */
    method RecordVerb(r: Route, verb: string, collidable: seq<Field>)
      requires Tied() && r in routes && verb in r.methods && collidable == Collidable(r.fields)
      modifies this
      ensures Tied() && routes == old(routes) && Recorded(r, verb)
      ensures forall q, m :: old(Recorded(q, m)) ==> Recorded(q, m)
    {
      assert RegisteredWith(routes, r.Parameterized(), r.path, verb, collidable);
      assert Registered(routes, r.Parameterized(), r.path, verb);
      if r.Parameterized() {
        patternRoutes := patternRoutes + [(r.path, verb)];
        if collidable != [] {
          patternCollidable := patternCollidable + [(r.path, verb, collidable)];
        }
      } else {
        exactRoutes := exactRoutes + {(r.path, verb)};
        if collidable != [] {
          exactCollidable := exactCollidable[(r.path, verb) := collidable];
        }
      }
    }

    // -------------------------------------------------------------------------------------------
    // Looking a request up
    // -------------------------------------------------------------------------------------------

    function CollidableFieldsFor(fullMatch: FullMatch, path: string, verb: string): (r: Option<seq<Field>>)
      reads this
    {
      if (path, verb) in exactCollidable then Some(exactCollidable[(path, verb)])
      else FirstPattern(fullMatch, patternCollidable, path, verb)
    }

    predicate IsProtoRoute(fullMatch: FullMatch, path: string, verb: string)
      reads this
    {
      var m := if verb == "HEAD" then "GET" else verb;
      (path, m) in exactRoutes || exists e :: e in patternRoutes && e.1 == m && fullMatch(e.0, path)
    }

    function FindDualSpellingCollision(fullMatch: FullMatch, req: Request): (r: Option<string>)
      reads this
    {
      var collidable := CollidableFieldsFor(fullMatch, req.path, req.verb);
      if collidable.None? || collidable.value == [] || MlflowReadsArgs(req) then None
      else
        var data := RequestBody(req);
        if data.None? || data.value == [] then None else FirstCollision(collidable.value, data.value)
    }

    predicate HasUnexpectedGetBody(fullMatch: FullMatch, req: Request)
      reads this
    {
      && (req.verb == "GET" || req.verb == "HEAD")
      && !(req.verb == "GET" && req.args != [])
      && IsProtoRoute(fullMatch, req.path, req.verb)
      && RequestBody(req).Some? && RequestBody(req).value != []
    }

    /** Whether MLflow parses a message on this route, and the value authorization reads for a field. */
    function ProtoRequestValue(fullMatch: FullMatch, req: Request, field: string): (r: (bool, Option<string>))
      reads this
    {
      if !IsProtoRoute(fullMatch, req.path, req.verb) then (false, None)
      else if MlflowReadsArgs(req) then (true, FirstArg(req.args, field))
      else
        var data := RequestBody(req);
        if data.None? || data.value == [] then (true, None)
        else if HasKey(data.value, field) then (true, Lookup(data.value, field))
        else if HasKey(data.value, SnakeToCamel(field)) then (true, Lookup(data.value, SnakeToCamel(field)))
        else (true, None)
    }

    /** Both checks of the before-request hook let the request through. */
    predicate Admitted(fullMatch: FullMatch, req: Request)
      reads this
    {
      FindDualSpellingCollision(fullMatch, req).None? && !HasUnexpectedGetBody(fullMatch, req)
    }

    /** The tables give back the collidable fields of the one route that serves a request. */
    lemma TablesKnowTheRoute(fullMatch: FullMatch, r: Route, path: string, verb: string)
      requires Valid() && OnlyRoute(fullMatch, routes, r, path, verb)
      ensures var found := CollidableFieldsFor(fullMatch, path, verb);
              if Collidable(r.fields) == [] then found.None? || found.value == [] else found == Some(Collidable(r.fields))
    {
      assert Recorded(r, verb);
      FirstPatternStems(fullMatch, patternCollidable, path, verb);
      var found := CollidableFieldsFor(fullMatch, path, verb);
      if found.Some? {
        var pattern, collidable := path, found.value;
        if (path, verb) !in exactCollidable {
          var e :| e in patternCollidable && e.1 == verb && fullMatch(e.0, path) && found.value == e.2;
          pattern := e.0;
        }
        var q :| q in routes && q.Parameterized() == ((path, verb) !in exactCollidable) && q.path == pattern
                 && verb in q.methods && Collidable(q.fields) == collidable;
        assert Serves(fullMatch, q, path, verb);
      }
    }

    /** A request some route serves is recognised as one MLflow parses; HEAD rides on GET. */
    lemma ServedRequestsAreProto(fullMatch: FullMatch, r: Route, path: string, verb: string)
      requires Valid() && r in routes
      requires Serves(fullMatch, r, path, if verb == "HEAD" then "GET" else verb)
      ensures IsProtoRoute(fullMatch, path, verb)
    {
      var m := if verb == "HEAD" then "GET" else verb;
      assert Recorded(r, m);
      if r.Parameterized() {
        assert (r.path, m) in patternRoutes && (r.path, m).1 == m && fullMatch((r.path, m).0, path);
      }
    }

    /** A request is taken for one MLflow parses exactly when some registered route serves it, a HEAD as
        its GET: a route without placeholders by its path, one with placeholders by its pattern. */
    lemma ProtoRequestsAreTheServedOnes(fullMatch: FullMatch, req: Request, field: string)
      requires Valid()
      ensures ProtoRequestValue(fullMatch, req, field).0 <==>
                exists r :: && r in routes && (if req.verb == "HEAD" then "GET" else req.verb) in r.methods
                            && (if '<' in r.path then fullMatch(r.path, req.path) else r.path == req.path)
      ensures !ProtoRequestValue(fullMatch, req, field).0 ==> ProtoRequestValue(fullMatch, req, field).1 == None
    {
      var m := if req.verb == "HEAD" then "GET" else req.verb;
      if IsProtoRoute(fullMatch, req.path, req.verb) {
        if (req.path, m) in exactRoutes {
          assert Registered(routes, false, req.path, m);
        } else {
          var e :| e in patternRoutes && e.1 == m && fullMatch(e.0, req.path);
          assert Registered(routes, true, e.0, e.1);
        }
      }
      if r :| r in routes && m in r.methods && (if '<' in r.path then fullMatch(r.path, req.path) else r.path == req.path) {
        ServedRequestsAreProto(fullMatch, r, req.path, req.verb);
      }
    }

    /** On every admitted request of a proto route, authorization reads each field exactly as MLflow
        will: from the query string of a GET that has one, and otherwise from the body under either
        spelling, where the checks have ruled out the bodies in which the order of keys matters. */
    lemma AuthorizationSeesWhatMlflowParses(fullMatch: FullMatch, r: Route, f: Field, req: Request)
      requires Valid() && DispatchesTo(fullMatch, routes, r, req)
      requires WellFormed(r.fields) && f in r.fields && f.jsonName == SnakeToCamel(f.name)
      requires Admitted(fullMatch, req)
      ensures ProtoRequestValue(fullMatch, req, f.name) == (true, MlflowSees(r.fields, req, f))
    {
      ServedRequestsAreProto(fullMatch, r, req.path, req.verb);
      var data := RequestBody(req);
      if !MlflowReadsArgs(req) && data.Some? && data.value != [] {
        assert req.verb != "GET" && req.verb != "HEAD";
        if f.name != f.jsonName {
          NoCollisionMeansOneSpelling(fullMatch, r, f, req);
        }
        LastSpellingIsTheOnlyOne(r.fields, f, data.value);
      }
    }

    lemma NoCollisionMeansOneSpelling(fullMatch: FullMatch, r: Route, f: Field, req: Request)
      requires Valid() && OnlyRoute(fullMatch, routes, r, req.path, req.verb)
      requires f in r.fields && f.name != f.jsonName
      requires !MlflowReadsArgs(req) && RequestBody(req).Some?
      requires FindDualSpellingCollision(fullMatch, req).None?
      ensures !(HasKey(RequestBody(req).value, f.name) && HasKey(RequestBody(req).value, f.jsonName))
    {
      TablesKnowTheRoute(fullMatch, r, req.path, req.verb);
      CollidableFields(r.fields);
      var data := RequestBody(req).value;
      if data != [] {
        FirstCollisionFindsAny(Collidable(r.fields), data);
      }
    }

    /** A request is admitted exactly when nothing about it is ambiguous: a GET with a query string
        always, any other GET or HEAD when no body gives it fields, and every other request when its
        body spells no field of the message two ways. */
    lemma AdmittedExactlyWhen(fullMatch: FullMatch, r: Route, req: Request)
      requires Valid() && DispatchesTo(fullMatch, routes, r, req)
      ensures Admitted(fullMatch, req) <==>
                if req.verb == "GET" && req.args != [] then true
                else if !(req.body.Some? && req.body.value.Object?) then true
                else if req.verb == "GET" || req.verb == "HEAD" then req.body.value.entries == []
                else !SpelledTwoWays(r.fields, req.body.value.entries)
    {
      ServedRequestsAreProto(fullMatch, r, req.path, req.verb);
      if req.verb != "HEAD" {
        TablesKnowTheRoute(fullMatch, r, req.path, req.verb);
      }
      if req.body.Some? && req.body.value.Object? {
        CollisionIsBothSpellings(r.fields, req.body.value.entries);
      }
    }

    /** The query string of a request that is not a GET counts for nothing: neither the value
        authorization reads nor either check changes with it. */
    lemma ArgsCountOnlyOnGet(fullMatch: FullMatch, req: Request, args: seq<(string, string)>, field: string)
      requires req.verb != "GET"
      ensures ProtoRequestValue(fullMatch, req.(args := args), field) == ProtoRequestValue(fullMatch, req, field)
      ensures FindDualSpellingCollision(fullMatch, req.(args := args)) == FindDualSpellingCollision(fullMatch, req)
      ensures HasUnexpectedGetBody(fullMatch, req.(args := args)) <==> HasUnexpectedGetBody(fullMatch, req)
    {
    }

    /** The body of a GET with a query string counts for nothing, and the first argument of a name is
        the one that counts. */
    lemma ArgsDecideOnGet(fullMatch: FullMatch, req: Request, body: Option<Body>, field: string)
      requires req.verb == "GET" && req.args != [] && IsProtoRoute(fullMatch, req.path, req.verb)
      ensures ProtoRequestValue(fullMatch, req.(body := body), field) == ProtoRequestValue(fullMatch, req, field)
      ensures ProtoRequestValue(fullMatch, req, field) == (true, None) <==> forall a :: a in req.args ==> a.0 != field
      ensures forall i :: 0 <= i < |req.args| && req.args[i].0 == field && (forall j :: 0 <= j < i ==> req.args[j].0 != field) ==>
                ProtoRequestValue(fullMatch, req, field) == (true, Some(req.args[i].1))
    {
      FirstArgIsTheFirst(req.args, field);
    }

    /** Of the entries of a body that spell a field one way, the last one is read, and a null is no value. */
    lemma TheLastEntryIsRead(fullMatch: FullMatch, req: Request, field: string, key: string, i: nat)
      requires req.verb != "GET" && IsProtoRoute(fullMatch, req.path, req.verb)
      requires req.body.Some? && req.body.value.Object? && i < |req.body.value.entries| && req.body.value.entries[i].0 == key
      requires forall j :: i < j < |req.body.value.entries| ==> req.body.value.entries[j].0 != key
      requires key == field || (key == SnakeToCamel(field) && forall j :: 0 <= j < |req.body.value.entries| ==> req.body.value.entries[j].0 != field)
      ensures ProtoRequestValue(fullMatch, req, field)
              == (true, match req.body.value.entries[i].1 case Null => None case Text(text) => Some(text))
    {
      var data := req.body.value.entries;
      LookupIsTheLast(data, key, i);
      assert HasKey(data, key);
    }

    /** Without the collision check the two can differ: for every field with two spellings there is
        a body that names one value to authorization and another to MLflow. */
    lemma CollisionCheckIsNeeded(fullMatch: FullMatch, r: Route, f: Field, path: string, verb: string)
      requires Valid() && OnlyRoute(fullMatch, routes, r, path, verb) && verb != "GET" && verb != "HEAD"
      requires WellFormed(r.fields) && f in r.fields && f.name != f.jsonName
      ensures var req := Request(verb, path, [], Some(Object([(f.name, Text("own")), (f.jsonName, Text("other"))])));
              && !HasUnexpectedGetBody(fullMatch, req)
              && ProtoRequestValue(fullMatch, req, f.name) == (true, Some("own"))
              && MlflowSees(r.fields, req, f) == Some("other")
    {
      ServedRequestsAreProto(fullMatch, r, path, verb);
      var data := [(f.name, Text("own")), (f.jsonName, Text("other"))];
      var req := Request(verb, path, [], Some(Object(data)));
      assert data[..1] == [data[0]] && data[..1][..0] == [];
      assert HasKey(data, f.name) by { assert data[0].0 == f.name; }
      assert Lookup(data, f.name) == Some("own");
      SpellingResolves(r.fields, f, f.jsonName);
      assert ParsedValue(r.fields, data, f) == Some("other");
    }

    /** Off GET and HEAD, the reader's own spelling is right for a field on all admitted requests if
        and only if the descriptor declares the derived `json_name`. */
    lemma ReaderIsExactIffDefaultJsonName(fullMatch: FullMatch, r: Route, f: Field, path: string, verb: string)
      requires Valid() && OnlyRoute(fullMatch, routes, r, path, verb) && verb != "GET" && verb != "HEAD"
      requires WellFormed(r.fields) && f in r.fields
      ensures (forall req: Request :: req.path == path && req.verb == verb && Admitted(fullMatch, req) ==>
                 ProtoRequestValue(fullMatch, req, f.name) == (true, MlflowSees(r.fields, req, f)))
              <==> f.jsonName == SnakeToCamel(f.name)
    {
      if f.jsonName == SnakeToCamel(f.name) {
        forall req: Request | req.path == path && req.verb == verb && Admitted(fullMatch, req)
          ensures ProtoRequestValue(fullMatch, req, f.name) == (true, MlflowSees(r.fields, req, f))
        {
          AuthorizationSeesWhatMlflowParses(fullMatch, r, f, req);
        }
      } else {
        // One key, under the spelling only one of the two knows.
        var key := if f.jsonName != f.name then f.jsonName else SnakeToCamel(f.name);
        SingleKeyBodyDiffers(fullMatch, r, f, path, verb, key);
      }
    }

    lemma SingleKeyBodyDiffers(fullMatch: FullMatch, r: Route, f: Field, path: string, verb: string, key: string)
      requires Valid() && OnlyRoute(fullMatch, routes, r, path, verb) && verb != "GET" && verb != "HEAD"
      requires WellFormed(r.fields) && f in r.fields && f.jsonName != SnakeToCamel(f.name)
      requires key == if f.jsonName != f.name then f.jsonName else SnakeToCamel(f.name)
      ensures exists req: Request :: req.path == path && req.verb == verb && Admitted(fullMatch, req)
                && ProtoRequestValue(fullMatch, req, f.name) != (true, MlflowSees(r.fields, req, f))
    {
      var data := [(key, Text("v"))];
      var req := Request(verb, path, [], Some(Object(data)));
      ServedRequestsAreProto(fullMatch, r, path, verb);
      SingleKeyAdmitted(fullMatch, r, req, data);
      OneEntry(r.fields, key, Text("v"), f);
      SpellingResolves(r.fields, f, key);
      assert ProtoRequestValue(fullMatch, req, f.name) != (true, MlflowSees(r.fields, req, f));
    }

    lemma SingleKeyAdmitted(fullMatch: FullMatch, r: Route, req: Request, data: seq<(string, Value)>)
      requires Valid() && OnlyRoute(fullMatch, routes, r, req.path, req.verb) && req.verb != "GET" && req.verb != "HEAD"
      requires req.body == Some(Object(data)) && |data| == 1
      ensures Admitted(fullMatch, req)
    {
      TablesKnowTheRoute(fullMatch, r, req.path, req.verb);
      CollidableFields(r.fields);
      FirstCollisionIsOne(Collidable(r.fields), data);
    }
  }

  lemma OneEntry(fields: seq<Field>, key: string, v: Value, f: Field)
    ensures forall k :: HasKey([(key, v)], k) <==> k == key
    ensures Lookup([(key, v)], key) == Present(v)
    ensures ParsedValue(fields, [(key, v)], f) == if FieldNamed(fields, key) == Some(f) then Present(v) else None
  {
    var data := [(key, v)];
    assert data[0].0 == key;
    assert data[..0] == [];
  }

  ghost predicate Registered(routes: seq<Route>, parameterized: bool, path: string, verb: string) {
    exists r :: r in routes && r.Parameterized() == parameterized && r.path == path && verb in r.methods
  }

  ghost predicate RegisteredWith(routes: seq<Route>, parameterized: bool, path: string, verb: string, collidable: seq<Field>) {
    exists r :: r in routes && r.Parameterized() == parameterized && r.path == path && verb in r.methods
                && Collidable(r.fields) == collidable
  }

  lemma RegistrationGrows(routes: seq<Route>, r: Route)
    ensures forall p, path, verb :: Registered(routes, p, path, verb) ==> Registered(routes + [r], p, path, verb)
    ensures forall p, path, verb, c :: RegisteredWith(routes, p, path, verb, c) ==> RegisteredWith(routes + [r], p, path, verb, c)
  {
    assert forall q :: q in routes ==> q in routes + [r];
  }

  function FirstPattern(fullMatch: FullMatch, entries: seq<(string, string, seq<Field>)>, path: string, verb: string): (r: Option<seq<Field>>) {
    if entries == [] then None
    else if entries[0].1 == verb && fullMatch(entries[0].0, path) then Some(entries[0].2)
    else FirstPattern(fullMatch, entries[1..], path, verb)
  }

  lemma {:induction false} FirstPatternStems(fullMatch: FullMatch, entries: seq<(string, string, seq<Field>)>, path: string, verb: string)
    ensures var found := FirstPattern(fullMatch, entries, path, verb);
            && (found.Some? ==> exists e :: e in entries && e.1 == verb && fullMatch(e.0, path) && found.value == e.2)
            && (found.None? ==> forall e :: e in entries ==> !(e.1 == verb && fullMatch(e.0, path)))
  {
    if entries != [] {
      FirstPatternStems(fullMatch, entries[1..], path, verb);
      assert entries == [entries[0]] + entries[1..];
      assert entries[0] in entries;
    }
  }

  /** `r` is the only registered route that serves the path and method. */
  ghost predicate OnlyRoute(fullMatch: FullMatch, routes: seq<Route>, r: Route, path: string, verb: string) {
    r in routes && Serves(fullMatch, r, path, verb) && forall q :: q in routes && Serves(fullMatch, q, path, verb) ==> q == r
  }

  /** MLflow dispatches the request to `r`; a HEAD goes where its GET goes. */
  ghost predicate DispatchesTo(fullMatch: FullMatch, routes: seq<Route>, r: Route, req: Request) {
    OnlyRoute(fullMatch, routes, r, req.path, if req.verb == "HEAD" then "GET" else req.verb)
  }

  // ---------------------------------------------------------------------------------------------
  // Requests, and how MLflow parses them
  // ---------------------------------------------------------------------------------------------

  datatype Value = Null | Text(text: string)

  /** The body MLflow's own normaliser yields: an object with its keys in order, or something else. */
  datatype Body = Object(entries: seq<(string, Value)>) | NotAnObject

  /** `body` is None when it is malformed or absent; `args` are the query parameters in order. */
  datatype Request = Request(verb: string, path: string, args: seq<(string, string)>, body: Option<Body>)

  function RequestBody(req: Request): (r: Option<seq<(string, Value)>>) {
    if req.body.Some? && req.body.value.Object? then Some(req.body.value.entries) else None
  }

  predicate MlflowReadsArgs(req: Request) { req.verb == "GET" && req.args != [] }

  predicate HasKey(data: seq<(string, Value)>, key: string) {
    exists i :: 0 <= i < |data| && data[i].0 == key
  }

  /** A null stands for an absent value, to the reader and to ProtoJSON alike. */
  function Present(v: Value): (r: Option<string>) { if v.Null? then None else Some(v.text) }

  function Lookup(data: seq<(string, Value)>, key: string): (r: Option<string>) {
    if data == [] then None
    else if data[|data| - 1].0 == key then Present(data[|data| - 1].1)
    else Lookup(data[..|data| - 1], key)
  }

  function FirstArg(args: seq<(string, string)>, name: string): (r: Option<string>) {
    if args == [] then None
    else if args[0].0 == name then Some(args[0].1)
    else FirstArg(args[1..], name)
  }

  /** Some field with two spellings appears under both. */
  ghost predicate SpelledTwoWays(fields: seq<Field>, data: seq<(string, Value)>) {
    exists f, i, j :: && f in fields && f.name != f.jsonName && 0 <= i < |data| && 0 <= j < |data|
                      && data[i].0 == f.name && data[j].0 == f.jsonName
  }

  lemma CollisionIsBothSpellings(fields: seq<Field>, data: seq<(string, Value)>)
    ensures FirstCollision(Collidable(fields), data).Some? <==> SpelledTwoWays(fields, data)
  {
    CollidableFields(fields);
    FirstCollisionFindsAny(Collidable(fields), data);
    if f, i, j :| && f in fields && f.name != f.jsonName && 0 <= i < |data| && 0 <= j < |data|
                  && data[i].0 == f.name && data[j].0 == f.jsonName
    {
      assert f in Collidable(fields) && HasKey(data, f.name) && HasKey(data, f.jsonName);
    }
  }

  lemma {:induction false} FirstArgIsTheFirst(args: seq<(string, string)>, name: string)
    ensures FirstArg(args, name).None? <==> forall a :: a in args ==> a.0 != name
    ensures forall i :: 0 <= i < |args| && args[i].0 == name && (forall j :: 0 <= j < i ==> args[j].0 != name) ==>
              FirstArg(args, name) == Some(args[i].1)
  {
    if args != [] {
      FirstArgIsTheFirst(args[1..], name);
      assert args == [args[0]] + args[1..];
      forall i | 0 < i < |args| && args[i].0 == name && (forall j :: 0 <= j < i ==> args[j].0 != name)
        ensures FirstArg(args, name) == Some(args[i].1)
      {
        assert args[0].0 != name;
        assert args[1..][i - 1] == args[i];
        forall j | 0 <= j < i - 1 ensures args[1..][j].0 != name {
          assert args[1..][j] == args[j + 1];
        }
      }
    }
  }

  lemma {:induction false} LookupIsTheLast(data: seq<(string, Value)>, key: string, i: nat)
    requires i < |data| && data[i].0 == key && forall j :: i < j < |data| ==> data[j].0 != key
    ensures Lookup(data, key) == match data[i].1 case Null => None case Text(text) => Some(text)
    decreases |data|
  {
    if i < |data| - 1 {
      LookupIsTheLast(data[..|data| - 1], key, i);
    }
  }

  function FirstCollision(collidable: seq<Field>, data: seq<(string, Value)>): (r: Option<string>) {
    if collidable == [] then None
    else if HasKey(data, collidable[0].name) && HasKey(data, collidable[0].jsonName) then Some(collidable[0].name)
    else FirstCollision(collidable[1..], data)
  }

  lemma {:induction false} FirstCollisionFindsAny(collidable: seq<Field>, data: seq<(string, Value)>)
    ensures FirstCollision(collidable, data).None? <==>
            forall f :: f in collidable ==> !(HasKey(data, f.name) && HasKey(data, f.jsonName))
  {
    if collidable != [] {
      FirstCollisionFindsAny(collidable[1..], data);
      assert collidable == [collidable[0]] + collidable[1..];
      assert collidable[0] in collidable;
    }
  }

  lemma FirstCollisionIsOne(collidable: seq<Field>, data: seq<(string, Value)>)
    requires |data| == 1 && forall f :: f in collidable ==> f.name != f.jsonName
    ensures FirstCollision(collidable, data).None?
  {
    FirstCollisionFindsAny(collidable, data);
    forall f | f in collidable ensures !(HasKey(data, f.name) && HasKey(data, f.jsonName)) {
    }
  }

  /** The field a JSON key names: a JSON spelling first, then a field name. */
  function FieldNamed(fields: seq<Field>, key: string): (r: Option<Field>) {
    var byJson := FirstWith(fields, key, true);
    if byJson.Some? then byJson else FirstWith(fields, key, false)
  }

  function FirstWith(fields: seq<Field>, key: string, json: bool): (r: Option<Field>) {
    if fields == [] then None
    else if (if json then fields[0].jsonName else fields[0].name) == key then Some(fields[0])
    else FirstWith(fields[1..], key, json)
  }

  /** What a ProtoJSON parser leaves in `f`: its entries are taken in order, and the last one wins. */
  function ParsedValue(fields: seq<Field>, data: seq<(string, Value)>, f: Field): (r: Option<string>) {
    if data == [] then None
    else
      var last := data[|data| - 1];
      if FieldNamed(fields, last.0) == Some(f) then Present(last.1)
      else ParsedValue(fields, data[..|data| - 1], f)
  }

  /** What MLflow's own parse yields: the query string of a GET that has one, and otherwise the body. */
  function MlflowSees(fields: seq<Field>, req: Request, f: Field): (r: Option<string>) {
    if req.verb == "GET" && req.args != [] then FirstArg(req.args, f.name)
    else
      var data := RequestBody(req);
      if data.None? then None else ParsedValue(fields, data.value, f)
  }

  /** No two fields of a message share a spelling (the protobuf compiler refuses such a message). */
  ghost predicate WellFormed(fields: seq<Field>) {
    forall f, g :: f in fields && g in fields && f != g ==>
      f.name != g.name && f.jsonName != g.jsonName && f.name != g.jsonName
  }

  /** Distinct names and distinct derived JSON names already keep all spellings apart. */
  lemma DefaultJsonNamesAreWellFormed(fields: seq<Field>)
    requires forall f :: f in fields ==> f.jsonName == JsonName(f.name)
    requires forall f, g :: f in fields && g in fields && f != g ==> f.jsonName != g.jsonName
    ensures WellFormed(fields)
  {
    forall f, g | f in fields && g in fields && f != g
      ensures f.name != g.name && f.name != g.jsonName
    {
      OneSpellingIffNoUnderscore(f.name, false);
      OneSpellingIffNoUnderscore(g.name, false);
    }
  }

  lemma {:induction false} FirstWithFinds(fields: seq<Field>, key: string, json: bool)
    ensures var found := FirstWith(fields, key, json);
            && (found.Some? ==> found.value in fields && (if json then found.value.jsonName else found.value.name) == key)
            && (found.None? ==> forall g :: g in fields ==> (if json then g.jsonName else g.name) != key)
  {
    if fields != [] {
      FirstWithFinds(fields[1..], key, json);
      assert fields == [fields[0]] + fields[1..];
    }
  }

  /** In a well-formed message a key names a field exactly when it is one of its two spellings. */
  lemma SpellingResolves(fields: seq<Field>, f: Field, key: string)
    requires WellFormed(fields) && f in fields
    ensures FieldNamed(fields, key) == Some(f) <==> key == f.name || key == f.jsonName
  {
    FirstWithFinds(fields, key, true);
    FirstWithFinds(fields, key, false);
  }

  /** With one spelling of a field in the body, the parser's last entry is the entry under that spelling. */
  lemma {:induction false} LastSpellingIsTheOnlyOne(fields: seq<Field>, f: Field, data: seq<(string, Value)>)
    requires WellFormed(fields) && f in fields
    requires !(HasKey(data, f.name) && HasKey(data, f.jsonName) && f.name != f.jsonName)
    ensures ParsedValue(fields, data, f)
            == if HasKey(data, f.name) then Lookup(data, f.name)
               else if HasKey(data, f.jsonName) then Lookup(data, f.jsonName) else None
  {
    if data != [] {
      var last := data[|data| - 1];
      var init := data[..|data| - 1];
      SpellingResolves(fields, f, last.0);
      assert forall k :: HasKey(data, k) <==> HasKey(init, k) || last.0 == k by {
        forall k | HasKey(init, k) ensures HasKey(data, k) {
          var i :| 0 <= i < |init| && init[i].0 == k;
          assert data[i].0 == k;
        }
        forall k | HasKey(data, k) && last.0 != k ensures HasKey(init, k) {
          var i :| 0 <= i < |data| && data[i].0 == k;
          assert init[i].0 == k;
        }
        assert HasKey(data, last.0);
      }
      LastSpellingIsTheOnlyOne(fields, f, init);
    }
  }
}
