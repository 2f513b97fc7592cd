/** The base authenticator `Auth` (api/v1/auth/auth.py): a class without
    fields whose three methods return constants. It is the variant that
    `AUTH_TYPE=auth` selects, and `BasicAuth` inherits `require_auth` and
    `authorization_header` from it unchanged. */
module Auth {
  import opened Py

  /** An incoming request: its path and, when the client sent one, the
      value of its `Authorization` header. */
  datatype Request = Request(path: string, authorization: Option<string>)

  /** `Auth.require_auth`: never requires authentication. */
  function RequireAuth(path: PyVal, excludedPaths: Option<seq<string>>): (r: bool)
    ensures !r
  {
    false
  }

  /** `Auth.authorization_header`: the header is never read. */
  function AuthorizationHeader(request: Option<Request>): (r: PyVal)
    ensures r == PyNone
  {
    PyNone
  }

  /** `Auth.current_user`: no user is ever resolved. */
  function CurrentUser<U>(request: Option<Request>): (r: Option<U>)
    ensures r == None
  {
    None
  }

  /** No path needs authentication, whatever the exclusion list,
      including a missing or empty one. */
  lemma RequireAuthNeverRequires()
    ensures forall path, excluded :: !RequireAuth(path, excluded)
  {
  }

  /** The header is reported absent even for a request that carries one. */
  lemma AuthorizationHeaderAlwaysAbsent(path: string, header: string)
    ensures AuthorizationHeader(Some(Request(path, Some(header)))) == PyNone
    ensures forall r :: AuthorizationHeader(r) == PyNone
  {
  }

  lemma CurrentUserAlwaysNone<U>()
    ensures forall r :: CurrentUser<U>(r) == None
  {
  }

  /** The class has no state: any two calls of a method agree, whatever
      their arguments. */
  lemma ResultsIgnoreArguments<U>(p1: PyVal, e1: Option<seq<string>>, p2: PyVal, e2: Option<seq<string>>,
                                  r1: Option<Request>, r2: Option<Request>)
    ensures RequireAuth(p1, e1) == RequireAuth(p2, e2)
    ensures AuthorizationHeader(r1) == AuthorizationHeader(r2)
    ensures CurrentUser<U>(r1) == CurrentUser<U>(r2)
  {
  }
}
