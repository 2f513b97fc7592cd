/** The application's authentication set-up (api/v1/app.py): the choice of
    authenticator from `AUTH_TYPE`, the `before_request` gate, and the
    JSON error handlers. `abort(code)` becomes an outcome value. */
module App {
  import opened Py
  import Auth
  import BasicAuth

  /** The classes `AUTH_TYPE` can select. */
  datatype Authenticator = AuthBase | Basic {

    /** Both classes use `Auth.require_auth`. */
    function RequireAuth(path: PyVal, excludedPaths: Option<seq<string>>): (r: bool)
      ensures !r
    {
      Auth.RequireAuth(path, excludedPaths)
    }

    /** Both classes use `Auth.authorization_header`. */
    function AuthorizationHeader(request: Option<Auth.Request>): (r: PyVal)
      ensures r == PyNone
    {
      Auth.AuthorizationHeader(request)
    }

    /** `current_user`: `BasicAuth` overrides it, but with the inherited
        header stub neither class ever resolves a user. */
    function CurrentUser<U>(request: Option<Auth.Request>, store: BasicAuth.UserStore<U>): (r: Outcome<Option<U>>)
      ensures this.Basic? ==> r == BasicAuth.CurrentUser(request, store)
      ensures r == Returned(None)
    {
      match this
      case AuthBase => Returned(Auth.CurrentUser(request))
      case Basic => BasicAuth.CurrentUser(request, store)
    }
  }

  /** The module-level `auth`, chosen once from `AUTH_TYPE` (`None` when
      the variable is unset). */
  function SelectAuthenticator(authType: Option<string>): (r: Option<Authenticator>)
    ensures r == Some(AuthBase) <==> authType == Some("auth")
    ensures r == Some(Basic) <==> authType == Some("basic_auth")
    ensures r == None <==> authType != Some("auth") && authType != Some("basic_auth")
  {
    if authType == Some("auth") then Some(AuthBase)
    else if authType == Some("basic_auth") then Some(Basic)
    else None
  }

  /** What the gate needs from an authenticator: its three methods, as
      the gate calls them. */
  datatype AuthMethods<!U> = AuthMethods(
    requireAuth: (string, seq<string>) -> bool,
    authorizationHeader: Auth.Request -> PyVal,
    currentUser: Auth.Request -> Outcome<Option<U>>)

  /** The methods of a selected authenticator, over a given user store. */
  function MethodsOf<U>(auth: Option<Authenticator>, store: BasicAuth.UserStore<U>): (r: Option<AuthMethods<U>>)
    ensures r.Some? <==> auth.Some?
    ensures r.Some? ==> forall path, excluded :: !r.value.requireAuth(path, excluded)
    ensures r.Some? ==> forall request :: r.value.authorizationHeader(request) == PyNone
    ensures r.Some? ==> forall request :: r.value.currentUser(request) == Returned(None)
  {
    match auth
    case None => None
    case Some(a) =>
      Some(AuthMethods(
        (path: string, excluded: seq<string>) => a.RequireAuth(PyStr(path), Some(excluded)),
        (request: Auth.Request) => a.AuthorizationHeader(Some(request)),
        (request: Auth.Request) => a.CurrentUser(Some(request), store)))
  }

  /** How `before_request` ends: the request goes on to its route, it is
      aborted with a status, or an exception escapes from the gate. */
  datatype GateOutcome = Proceed | Abort(status: int) | Propagate(exc: PyException)

  const ExcludedPaths: seq<string> := ["/api/v1/status/", "/api/v1/unauthorized/", "/api/v1/forbidden/"]

  /** `before_request`, for any authenticator: the checks in their fixed
      order, each ending the gate as soon as it decides. */
  function Gate<U>(auth: Option<AuthMethods<U>>, request: Auth.Request): (r: GateOutcome)
    ensures auth.None? ==> r == Proceed
    ensures r.Abort? ==> r.status in {401, 403}
    ensures r.Propagate? <==>
              (auth.Some? && auth.value.requireAuth(request.path, ExcludedPaths)
               && auth.value.authorizationHeader(request) != PyNone && auth.value.currentUser(request).Raised?)
  {
    match auth
    case None => Proceed
    case Some(m) =>
      if !m.requireAuth(request.path, ExcludedPaths) then Proceed
      else if m.authorizationHeader(request) == PyNone then Abort(401)
      else
        match m.currentUser(request)
        case Raised(e) => Propagate(e)
        case Returned(None) => Abort(403)
        case Returned(Some(_)) => Proceed
  }

  /** `before_request` as the application runs it, with the authenticator
      chosen from `AUTH_TYPE`. */
  function BeforeRequest<U>(authType: Option<string>, request: Auth.Request, store: BasicAuth.UserStore<U>): GateOutcome
  {
    Gate(MethodsOf(SelectAuthenticator(authType), store), request)
  }

  /** The body and status of an error response. */
  datatype JsonResponse = JsonResponse(body: map<string, string>, status: int)

  /** The registered error handlers; `None` for a status without one. */
  function ErrorHandler(status: int): (r: Option<JsonResponse>)
    ensures r.Some? <==> status in {401, 403, 404}
    ensures r.Some? ==> r.value.status == status && r.value.body.Keys == {"error"}
  {
    if status == 401 then Some(JsonResponse(map["error" := "Unauthorized"], 401))
    else if status == 403 then Some(JsonResponse(map["error" := "Forbidden"], 403))
    else if status == 404 then Some(JsonResponse(map["error" := "Not found"], 404))
    else None
  }

  lemma ErrorHandlerBodies()
    ensures ErrorHandler(401) == Some(JsonResponse(map["error" := "Unauthorized"], 401))
    ensures ErrorHandler(403) == Some(JsonResponse(map["error" := "Forbidden"], 403))
    ensures ErrorHandler(404) == Some(JsonResponse(map["error" := "Not found"], 404))
  {
  }

  /** Every abort of the gate has a JSON handler with the same status. */
  lemma {:induction false} GateAbortsAreHandled<U>(auth: Option<AuthMethods<U>>, request: Auth.Request)
    requires Gate(auth, request).Abort?
    ensures Gate(auth, request).status in {401, 403}
    ensures ErrorHandler(Gate(auth, request).status).Some?
  {
  }

  /** Without an authenticator every request goes through. */
  lemma DisabledGateAllows<U>(request: Auth.Request)
    ensures Gate<U>(None, request) == Proceed
  {
  }

  /** When the path needs no authentication the request goes through and
      neither the header nor the user is looked at. */
  lemma NotRequiredIgnoresHeaderAndUser<U>(
    requireAuth: (string, seq<string>) -> bool,
    header1: Auth.Request -> PyVal, header2: Auth.Request -> PyVal,
    user1: Auth.Request -> Outcome<Option<U>>, user2: Auth.Request -> Outcome<Option<U>>,
    request: Auth.Request)
    requires !requireAuth(request.path, ExcludedPaths)
    ensures Gate(Some(AuthMethods(requireAuth, header1, user1)), request) == Proceed
    ensures Gate(Some(AuthMethods(requireAuth, header2, user2)), request) == Proceed
  {
  }

  /** A missing header is answered 401 before the user is looked at, so
      401 takes precedence over 403. */
  lemma MissingHeaderIs401<U>(
    requireAuth: (string, seq<string>) -> bool, header: Auth.Request -> PyVal,
    user1: Auth.Request -> Outcome<Option<U>>, user2: Auth.Request -> Outcome<Option<U>>,
    request: Auth.Request)
    requires requireAuth(request.path, ExcludedPaths) && header(request) == PyNone
    ensures Gate(Some(AuthMethods(requireAuth, header, user1)), request) == Abort(401)
    ensures Gate(Some(AuthMethods(requireAuth, header, user2)), request) == Abort(401)
  {
  }

  /** With a header present, the outcome is decided by `current_user`:
      no user gives 403, a user lets the request through, and an
      exception escapes. */
  lemma PresentHeaderDecidedByUser<U>(m: AuthMethods<U>, request: Auth.Request)
    requires m.requireAuth(request.path, ExcludedPaths) && m.authorizationHeader(request) != PyNone
    ensures m.currentUser(request) == Returned(None) <==> Gate(Some(m), request) == Abort(403)
    ensures (m.currentUser(request).Returned? && m.currentUser(request).value.Some?) <==> Gate(Some(m), request) == Proceed
    ensures m.currentUser(request).Raised? <==> Gate(Some(m), request).Propagate?
  {
  }

  /** The gate rejects exactly when authentication is required and either
      the header is missing (401) or no user is resolved (403). */
  lemma {:induction false} GateRejectsExactly<U>(m: AuthMethods<U>, request: Auth.Request)
    ensures Gate(Some(m), request) == Abort(401) <==>
              m.requireAuth(request.path, ExcludedPaths) && m.authorizationHeader(request) == PyNone
    ensures Gate(Some(m), request) == Abort(403) <==>
              m.requireAuth(request.path, ExcludedPaths) && m.authorizationHeader(request) != PyNone
              && m.currentUser(request) == Returned(None)
  {
  }

  /** As shipped, `require_auth` is always false, so the gate lets every
      request through whichever `AUTH_TYPE` is set, with or without an
      `Authorization` header. */
  lemma {:induction false} ShippedGateAllowsEverything<U>(authType: Option<string>, request: Auth.Request, store: BasicAuth.UserStore<U>)
    ensures BeforeRequest(authType, request, store) == Proceed
  {
    var auth := SelectAuthenticator(authType);
    if auth.Some? {
      var m := MethodsOf(auth, store).value;
      assert m.requireAuth(request.path, ExcludedPaths) == auth.value.RequireAuth(PyStr(request.path), Some(ExcludedPaths));
      Auth.RequireAuthNeverRequires();
    }
  }
}
