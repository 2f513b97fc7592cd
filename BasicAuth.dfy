/** `BasicAuth` (api/v1/auth/basic_auth.py): HTTP Basic credentials in
    four guarded stages (take the token after `Basic `, Base64- and
    UTF-8-decode it, split it at the first colon, look the user up) and
    `current_user`, which chains them. The user store is an injected
    oracle. */
module BasicAuth {
  import opened Py
  import Base64
  import Utf8
  import Auth

  /** The user store the source queries: `User.search({'email': e})`
      and `user.is_valid_password(pwd)`. Nothing is assumed about it:
      emails need not be unique, nor need the records returned carry
      the email that was searched for. */
  datatype UserStore<!U> = UserStore(search: string -> seq<U>, isValidPassword: (U, string) -> bool)

  /** The scheme prefix, matched case-sensitively with exactly one space. */
  const Scheme: string := "Basic "

  /** `extract_base64_authorization_header`: the text after `Basic `,
      neither trimmed nor decoded. */
  function ExtractBase64AuthorizationHeader(header: PyVal): (r: Option<string>)
    ensures r.Some? <==> header.PyStr? && Scheme <= header.s
    ensures r.Some? ==> Scheme + r.value == header.s
  {
    if header.PyStr? && Scheme <= header.s then Some(header.s[|Scheme|..]) else None
  }

  /** `decode_base64_authorization_header`. `binascii.Error` from the
      Base64 decoder becomes `None`; a `UnicodeDecodeError` from the UTF-8
      decoder is not caught by `except binascii.Error` and escapes. */
  function DecodeBase64AuthorizationHeader(token: PyVal): (r: Outcome<Option<string>>)
    ensures !token.PyStr? ==> r == Returned(None)
    ensures token.PyStr? && Base64.Decode(token.s).Err? ==> r == Returned(None)
    ensures r.Returned? && r.value.Some? ==>
              token.PyStr? && Base64.Decode(token.s) == Base64.Ok(Utf8.Encode(r.value.value))
    ensures r.Raised? <==>
              token.PyStr? && Base64.Decode(token.s).Ok? && Utf8.Decode(Base64.Decode(token.s).bytes).None?
    ensures token.PyStr? && Base64.Decode(token.s).Ok? && Utf8.Decode(Base64.Decode(token.s).bytes).Some? ==>
              r == Returned(Utf8.Decode(Base64.Decode(token.s).bytes))
  {
    match token
    case PyStr(t) =>
      (match Base64.Decode(t)
       case Err(_) => Returned(None)
       case Ok(bytes) =>
         match Utf8.Decode(bytes)
         case None => Raised(UnicodeDecodeError)
         case Some(text) => Returned(Some(text)))
    case _ => Returned(None)
  }

  /** `str.find`: the index of the first occurrence of `c`, or -1. */
  function Find(s: string, c: char): (i: int)
    ensures -1 <= i < |s|
    ensures i == -1 <==> c !in s
    ensures 0 <= i ==> s[i] == c && c !in s[..i]
    decreases |s|
  {
    if s == [] then -1
    else if s[0] == c then 0
    else
      var j := Find(s[1..], c);
      if j == -1 then -1
      else
        assert s[..j + 1] == [s[0]] + s[1..][..j];
        j + 1
  }

  /** `extract_user_credentials`: `(None, None)` unless the text holds a
      colon; otherwise the parts before and after the FIRST colon. Empty
      parts are accepted and the password may itself hold colons. */
  function ExtractUserCredentials(decoded: PyVal): (r: (PyVal, PyVal))
    ensures !(decoded.PyStr? && ':' in decoded.s) ==> r == (PyNone, PyNone)
    ensures decoded.PyStr? && ':' in decoded.s ==>
              r.0.PyStr? && r.1.PyStr? && r.0.s + ":" + r.1.s == decoded.s && ':' !in r.0.s
  {
    if decoded.PyStr? && ':' in decoded.s then
      var s := decoded.s;
      var i := Find(s, ':');
      assert s == s[0..i] + ":" + s[i + 1..];
      (PyStr(s[0..i]), PyStr(s[i + 1..]))
    else (PyNone, PyNone)
  }

  /** `user_object_from_credentials`: the first record the search returns,
      provided its password check passes; the store is not queried unless
      both arguments are strings, and later records are never tried. */
  function UserObjectFromCredentials<U>(email: PyVal, pwd: PyVal, store: UserStore<U>): (r: Option<U>)
    ensures !(email.PyStr? && pwd.PyStr?) ==> r == None
    ensures r.Some? ==>
              email.PyStr? && pwd.PyStr? && |store.search(email.s)| > 0
              && r.value == store.search(email.s)[0] && store.isValidPassword(r.value, pwd.s)
    ensures (email.PyStr? && pwd.PyStr? && |store.search(email.s)| > 0
             && store.isValidPassword(store.search(email.s)[0], pwd.s)) ==> r.Some?
  {
    if !(email.PyStr? && pwd.PyStr?) then None
    else
      var result := store.search(email.s);
      if |result| == 0 then None
      else
        var user := result[0];
        if !store.isValidPassword(user, pwd.s) then None else Some(user)
  }

  /** The body of `current_user` after its `None` guard: the four stages
      applied to the value `authorization_header` returned. */
  function UserFromAuthorizationHeader<U>(header: PyVal, store: UserStore<U>): (r: Outcome<Option<U>>)
    ensures !(header.PyStr? && Scheme <= header.s) ==> r == Returned(None)
    ensures r.Raised? <==>
              (header.PyStr? && Scheme <= header.s
               && DecodeBase64AuthorizationHeader(PyStr(header.s[|Scheme|..])).Raised?)
  {
    var token := ExtractBase64AuthorizationHeader(header);
    match DecodeBase64AuthorizationHeader(FromOption(token))
    case Raised(e) => Raised(e)
    case Returned(decoded) =>
      var credentials := ExtractUserCredentials(FromOption(decoded));
      Returned(UserObjectFromCredentials(credentials.0, credentials.1, store))
  }

  /** `BasicAuth.current_user`, with the `authorization_header` it
      inherits from `Auth`. */
  function CurrentUser<U>(request: Option<Auth.Request>, store: UserStore<U>): (r: Outcome<Option<U>>)
    ensures request.None? ==> r == Returned(None)
  {
    if request.None? then Returned(None)
    else UserFromAuthorizationHeader(Auth.AuthorizationHeader(request), store)
  }

  /** Round trip of the decoding stage: the Base64 encoding of the UTF-8
      bytes of any text decodes to that text. */
  lemma DecodeRoundTrip(text: string)
    ensures DecodeBase64AuthorizationHeader(PyStr(Base64.Encode(Utf8.Encode(text)))) == Returned(Some(text))
  {
    Base64.DecodeEncode(Utf8.Encode(text));
    Utf8.DecodeEncode(text);
  }

  /** Well-formed Base64 whose bytes are not UTF-8 raises instead of
      giving `None`. */
  lemma DecodeRaisesOnNonUtf8(bytes: seq<Byte>)
    requires Utf8.Decode(bytes).None?
    ensures DecodeBase64AuthorizationHeader(PyStr(Base64.Encode(bytes))) == Raised(UnicodeDecodeError)
  {
    Base64.DecodeEncode(bytes);
  }

  lemma DecodeExamples()
    ensures DecodeBase64AuthorizationHeader(PyStr("")) == Returned(Some(""))
    ensures DecodeBase64AuthorizationHeader(PyStr("YQ")) == Returned(None)
    ensures DecodeBase64AuthorizationHeader(PyStr("/w==")) == Raised(UnicodeDecodeError)
    ensures DecodeBase64AuthorizationHeader(PyNone) == Returned(None)
  {
    Base64.DecodeExamples();
    Utf8.DecodeExamples();
  }

  /** The split is at the first colon, not the last. */
  lemma SplitAtFirstColonExample()
    ensures ExtractUserCredentials(PyStr("user:pa:ss")) == (PyStr("user"), PyStr("pa:ss"))
  {
    ExtractUserCredentialsJoin("user", "pa:ss");
    assert "user" + ":" + "pa:ss" == "user:pa:ss";
  }

  /** Empty user ids and empty passwords are not rejected. */
  lemma EmptyPartsExample()
    ensures ExtractUserCredentials(PyStr(":secret")) == (PyStr(""), PyStr("secret"))
    ensures ExtractUserCredentials(PyStr("user:")) == (PyStr("user"), PyStr(""))
  {
    ExtractUserCredentialsJoin("", "secret");
    assert "" + ":" + "secret" == ":secret";
    ExtractUserCredentialsJoin("user", "");
    assert "user" + ":" + "" == "user:";
  }

  /** Text without a colon, and anything that is not a string, gives no
      credentials. */
  lemma NoColonGivesNothing(s: string, v: PyVal)
    requires ':' !in s && !v.PyStr?
    ensures ExtractUserCredentials(PyStr(s)) == (PyNone, PyNone)
    ensures ExtractUserCredentials(v) == (PyNone, PyNone)
  {
  }

  /** Splitting undoes joining at a colon-free user id. */
  lemma {:induction false} ExtractUserCredentialsJoin(user: string, pwd: string)
    requires ':' !in user
    ensures ExtractUserCredentials(PyStr(user + ":" + pwd)) == (PyStr(user), PyStr(pwd))
  {
    var s := user + ":" + pwd;
    assert s[|user|] == ':';
    var r := ExtractUserCredentials(PyStr(s));
    var i := Find(s, ':');
    assert i == |user|;
    assert r.0.s == user && r.1.s == pwd;
  }

  /** Neither the store nor the password is consulted unless both
      arguments are strings. */
  lemma UserLookupNeedsStrings<U>(email: PyVal, pwd: PyVal, s1: UserStore<U>, s2: UserStore<U>)
    requires !(email.PyStr? && pwd.PyStr?)
    ensures UserObjectFromCredentials(email, pwd, s1) == UserObjectFromCredentials(email, pwd, s2) == None
  {
  }

  /** Only the first search result matters: two stores that agree on it
      and on its password check give the same answer. */
  lemma UserLookupUsesFirstMatchOnly<U>(email: string, pwd: string, s1: UserStore<U>, s2: UserStore<U>)
    requires |s1.search(email)| > 0 && |s2.search(email)| > 0
    requires s1.search(email)[0] == s2.search(email)[0]
    requires s1.isValidPassword(s1.search(email)[0], pwd) == s2.isValidPassword(s2.search(email)[0], pwd)
    ensures UserObjectFromCredentials(PyStr(email), PyStr(pwd), s1) == UserObjectFromCredentials(PyStr(email), PyStr(pwd), s2)
  {
  }

  /** End to end: a header `Basic <token>` whose token the lenient decoder
      turns into the UTF-8 bytes of `user:pwd`, with a colon-free user id,
      resolves exactly as the store resolves `(user, pwd)`. The token need
      not be the canonical encoding: characters outside the alphabet and
      anything after complete padding are skipped. */
  lemma {:induction false} WellFormedHeaderResolves<U>(user: string, pwd: string, token: string, store: UserStore<U>)
    requires ':' !in user
    requires Base64.Decode(token) == Base64.Ok(Utf8.Encode(user + ":" + pwd))
    ensures UserFromAuthorizationHeader(PyStr(Scheme + token), store)
         == Returned(UserObjectFromCredentials(PyStr(user), PyStr(pwd), store))
  {
    assert ExtractBase64AuthorizationHeader(PyStr(Scheme + token)) == Some(token);
    Utf8.DecodeEncode(user + ":" + pwd);
    ExtractUserCredentialsJoin(user, pwd);
  }

  /** The canonical header `Basic <base64(user:pwd)>` resolves exactly as
      the store resolves `(user, pwd)`. */
  lemma {:induction false} CanonicalHeaderResolves<U>(user: string, pwd: string, store: UserStore<U>)
    requires ':' !in user
    ensures UserFromAuthorizationHeader(PyStr(Scheme + Base64.Encode(Utf8.Encode(user + ":" + pwd))), store)
         == Returned(UserObjectFromCredentials(PyStr(user), PyStr(pwd), store))
  {
    Base64.DecodeEncode(Utf8.Encode(user + ":" + pwd));
    WellFormedHeaderResolves(user, pwd, Base64.Encode(Utf8.Encode(user + ":" + pwd)), store);
  }

  /** A user is resolved only from a header that is `Basic ` followed by
      a token decoding to `user:pwd`, with `user` colon-free, for which
      the store resolves that user; any failing stage gives no user. */
  lemma {:induction false} ResolvedUserHadValidCredentials<U>(header: PyVal, store: UserStore<U>)
    requires UserFromAuthorizationHeader(header, store).Returned?
    requires UserFromAuthorizationHeader(header, store).value.Some?
    ensures header.PyStr? && Scheme <= header.s
    ensures exists user, pwd :: ':' !in user
              && Base64.Decode(header.s[|Scheme|..]) == Base64.Ok(Utf8.Encode(user + ":" + pwd))
              && UserObjectFromCredentials(PyStr(user), PyStr(pwd), store) == UserFromAuthorizationHeader(header, store).value
  {
    var token := ExtractBase64AuthorizationHeader(header);
    var decoded := DecodeBase64AuthorizationHeader(FromOption(token));
    var credentials := ExtractUserCredentials(FromOption(decoded.value));
    assert credentials.0.PyStr? && credentials.1.PyStr?;
    assert decoded.value.Some?;
    var user, pwd := credentials.0.s, credentials.1.s;
    assert user + ":" + pwd == decoded.value.value;
  }

  /** With the inherited `authorization_header` stub, `current_user`
      finds no user for any request, whatever it carries. */
  lemma CurrentUserAlwaysNone<U>(request: Option<Auth.Request>, store: UserStore<U>)
    ensures CurrentUser(request, store) == Returned(None)
  {
  }
}
