/**
 The three auth routes as one state machine over the `users` table: a request
 names its route and carries the body fields, and each step yields the next
 table and the response.
 */
module Server {
  import opened Casing
  import opened Credentials
  import opened AccountStore
  import opened Jwt
  import opened Http
  import opened AccountService
  import opened Session

  datatype Route = RegisterRoute | RegisterAdminRoute | LoginRoute

  datatype Request = Request(route: Route, username: Field, password: Field)

  /** The role a registration route writes; the body has no say in it. */
  function RouteRole(route: Route): Role {
    if route == RegisterAdminRoute then Admin else User
  }

  /** What holds of every table the routes can build from an empty one: the
      table is well formed and every username in it is non-empty and already
      lowercased. */
  predicate Invariant(s: Store) {
    && Valid(s)
    && forall k :: k in s.accounts ==> k != [] && IsLowerCase(k)
  }

  lemma EmptySatisfiesInvariant()
    ensures Invariant(Empty)
    ensures |Empty.accounts| == 0
  {
  }

  /** One request against the table. */
  function Step(s: Store, h: Hasher, ctx: Context, req: Request): (out: Outcome)
    requires Invariant(s)
    ensures Invariant(out.store)
    ensures Extends(out.store, s)
    ensures |out.store.accounts| == |s.accounts| + (if out.response.Created? then 1 else 0)
    ensures out.response.Status() == 400 ==> out.store == s && out.effects == []
    ensures req.route == LoginRoute ==> out.store == s && out.response.Status() in {200, 401, 500}
    ensures req.route != LoginRoute ==> out.response.Status() in {201, 400, 409, 500}
    ensures forall k :: k in out.store.accounts && k !in s.accounts ==>
              && req.route != LoginRoute
              && out.response == Created(out.store.accounts[k].id, k)
              && out.store.accounts[k].role == RouteRole(req.route)
  {
    match req.route
    case RegisterRoute => Register(s, h, ctx, req.username, req.password)
    case RegisterAdminRoute => RegisterAdmin(s, h, ctx, req.username, req.password)
    case LoginRoute => Login(s, h, ctx, req.username, req.password)
  }

  /** Registering and then logging in with the same password, under any
      casing of the username, yields a token for exactly the account just
      created: its id, the lowercased username and the route's role. */
  lemma LoginAfterRegister(s: Store, h: Hasher, c1: Context, c2: Context,
                           route: Route, name: string, password: string, nameAgain: string)
    requires Invariant(s) && Sound(h)
    requires route != LoginRoute
    requires AcceptsInput(Given(name), Given(password))
    requires c1.backend == Available && c2.backend == Available
    requires ToLower(name) !in s.accounts
    requires SameIgnoringCase(name, nameAgain)
    ensures
      var reg := Step(s, h, c1, Request(route, Given(name), Given(password)));
      && reg.response.Created?
      && reg.response.username == ToLower(name)
      && Step(reg.store, h, c2, Request(LoginRoute, Given(nameAgain), Given(password))).response ==
         LoggedIn(LoginOkMessage, Sign(Claims(reg.response.id, ToLower(name), RoleName(RouteRole(route))), c2.nowMillis))
  {
    var reg := Step(s, h, c1, Request(route, Given(name), Given(password)));
    var key := ToLower(name);
    assert reg == RegisterAs(RouteRole(route), s, h, c1, Given(name), Given(password));
    assert reg.store.accounts[key] ==
           Account(reg.response.id, key, h.hash(password, c1.salt), RouteRole(route));
    assert h.verify(password, h.hash(password, c1.salt));
    ToLowerEqualIffSameIgnoringCase(name, nameAgain);
    assert Authenticates(reg.store, h, ToLower(nameAgain), Given(password));
    var login := Step(reg.store, h, c2, Request(LoginRoute, Given(nameAgain), Given(password)));
    assert login == Login(reg.store, h, c2, Given(nameAgain), Given(password));
  }

  /** Once a username is registered, registering it again on either route,
      under any casing, is a 409 that leaves the table unchanged. */
  lemma DuplicateIgnoringCase(s: Store, h: Hasher, c1: Context, c2: Context,
                              first: Route, second: Route, name: string, password: string,
                              nameAgain: string, passwordAgain: string)
    requires Invariant(s)
    requires first != LoginRoute && second != LoginRoute
    requires AcceptsInput(Given(name), Given(password))
    requires AcceptsInput(Given(nameAgain), Given(passwordAgain))
    requires c1.backend == Available && c2.backend == Available
    requires SameIgnoringCase(name, nameAgain)
    ensures
      var reg := Step(s, h, c1, Request(first, Given(name), Given(password)));
      var again := Step(reg.store, h, c2, Request(second, Given(nameAgain), Given(passwordAgain)));
      && again.response == Conflict(DuplicateMessage)
      && again.store == reg.store
  {
    ToLowerEqualIffSameIgnoringCase(name, nameAgain);
  }

  /** Number of 201 answers in `rs`. */
  function CreatedCount(rs: seq<Response>): nat {
    if rs == [] then 0
    else CreatedCount(rs[..|rs| - 1]) + (if rs[|rs| - 1].Created? then 1 else 0)
  }

  lemma CreatedCountSnoc(rs: seq<Response>, r: Response)
    ensures CreatedCount(rs + [r]) == CreatedCount(rs) + (if r.Created? then 1 else 0)
  {
    assert (rs + [r])[..|rs|] == rs;
  }

  /** Every account of `t` missing from `s` was created by one of the first
      `|responses|` requests: a registration whose 201 names it and whose
      route fixed its role. */
  ghost predicate CreatedByRequests(s: Store, t: Store, reqs: seq<Request>, responses: seq<Response>)
    requires |responses| <= |reqs|
  {
    forall k :: k in t.accounts && k !in s.accounts ==>
      exists j :: 0 <= j < |responses| && reqs[j].route != LoginRoute
        && responses[j] == Created(t.accounts[k].id, k)
        && t.accounts[k].role == RouteRole(reqs[j].route)
  }

  /** Everything serving the first `|responses|` requests keeps, starting
      from table `s` and reaching table `t`. */
  ghost predicate Served(s: Store, t: Store, reqs: seq<Request>, responses: seq<Response>)
    requires |responses| <= |reqs|
  {
    && Invariant(t) && Extends(t, s)
    && |t.accounts| == |s.accounts| + CreatedCount(responses)
    && (forall j :: 0 <= j < |responses| && reqs[j].route == LoginRoute ==>
          responses[j].Status() in {200, 401, 500})
    && CreatedByRequests(s, t, reqs, responses)
  }

  lemma CreatedByRequestsStep(s: Store, h: Hasher, ctx: Context, before: Store,
                              reqs: seq<Request>, responses: seq<Response>)
    requires Invariant(before)
    requires |responses| < |reqs|
    requires CreatedByRequests(s, before, reqs, responses)
    ensures
      var out := Step(before, h, ctx, reqs[|responses|]);
      CreatedByRequests(s, out.store, reqs, responses + [out.response])
  {
    var i := |responses|;
    var out := Step(before, h, ctx, reqs[i]);
    var rs := responses + [out.response];
    forall k | k in out.store.accounts && k !in s.accounts
      ensures exists j :: 0 <= j < |rs| && reqs[j].route != LoginRoute
                && rs[j] == Created(out.store.accounts[k].id, k)
                && out.store.accounts[k].role == RouteRole(reqs[j].route)
    {
      if k in before.accounts {
        var j :| 0 <= j < i && reqs[j].route != LoginRoute
                 && responses[j] == Created(before.accounts[k].id, k)
                 && before.accounts[k].role == RouteRole(reqs[j].route);
        assert rs[j] == responses[j];
      } else {
        assert rs[i] == out.response;
      }
    }
  }

  lemma LoginAnswersSnoc(reqs: seq<Request>, responses: seq<Response>, r: Response)
    requires |responses| < |reqs|
    requires forall j :: 0 <= j < |responses| && reqs[j].route == LoginRoute ==>
               responses[j].Status() in {200, 401, 500}
    requires reqs[|responses|].route == LoginRoute ==> r.Status() in {200, 401, 500}
    ensures forall j :: 0 <= j < |responses| + 1 && reqs[j].route == LoginRoute ==>
              (responses + [r])[j].Status() in {200, 401, 500}
  {
    var rs := responses + [r];
    forall j | 0 <= j < |rs| && reqs[j].route == LoginRoute
      ensures rs[j].Status() in {200, 401, 500}
    {
      if j < |responses| {
        assert rs[j] == responses[j];
      }
    }
  }

  lemma ServedStep(s: Store, h: Hasher, ctx: Context, before: Store,
                   reqs: seq<Request>, responses: seq<Response>)
    requires |responses| < |reqs|
    requires Served(s, before, reqs, responses)
    ensures
      var out := Step(before, h, ctx, reqs[|responses|]);
      Served(s, out.store, reqs, responses + [out.response])
  {
    var out := Step(before, h, ctx, reqs[|responses|]);
    CreatedCountSnoc(responses, out.response);
    CreatedByRequestsStep(s, h, ctx, before, reqs, responses);
    LoginAnswersSnoc(reqs, responses, out.response);
  }

  /** Serves `reqs` one after the other, the i-th in environment `ctxs[i]`.
      The table only grows, by one row per 201, and every account that is not
      in the starting table was created by a registration whose response
      names it and whose route fixed its role. */
  method Serve(s: Store, h: Hasher, ctxs: seq<Context>, reqs: seq<Request>)
    returns (final: Store, responses: seq<Response>)
    requires Invariant(s)
    requires |ctxs| == |reqs|
    ensures Invariant(final) && Extends(final, s)
    ensures |responses| == |reqs|
    ensures |final.accounts| == |s.accounts| + CreatedCount(responses)
    ensures forall i :: 0 <= i < |reqs| && reqs[i].route == LoginRoute ==>
              responses[i].Status() in {200, 401, 500}
    ensures CreatedByRequests(s, final, reqs, responses)
  {
    final := s;
    responses := [];
    var i := 0;
    while i < |reqs|
      invariant 0 <= i <= |reqs|
      invariant |responses| == i
      invariant Served(s, final, reqs, responses)
    {
      ServedStep(s, h, ctxs[i], final, reqs, responses);
      var out := Step(final, h, ctxs[i], reqs[i]);
      final := out.store;
      responses := responses + [out.response];
      i := i + 1;
    }
  }
}
