/**
 The API key check (src/Presentation/Middleware/ApiKeyMiddleware.php): every request
 except the health check must carry the configured key, in an `X-API-KEY` header or as
 a bearer token in `Authorization`.
 */
module ApiKeyMiddleware {
  import opened Core
  import opened Text

  /** The request array built by the entry point: the method and the raw request URI,
      query string included. */
  datatype Request = Request(verb: string, uri: string)

  /** The two request headers the key lookup reads, as the web server passes them
      (`HTTP_X_API_KEY` and `HTTP_AUTHORIZATION`), absent when not sent. */
  datatype Headers = Headers(apiKey: Option<string>, authorization: Option<string>)

  /** What `handle` returns: what the next handler returned, or the 401 array. */
  datatype Outcome<T> = Passed(value: T) | Rejected(response: Response)

  const UnauthorizedResponse: Response :=
    Response(401, ErrorBody("Unauthorized", "Invalid or missing API key. Include X-API-KEY header."))

  // ----- the bearer token -----

  /** ASCII lower case, as PCRE compares under the `i` flag. */
  function Lower(c: char): char {
    if 'A' <= c <= 'Z' then (c as int + 32) as char else c
  }

  /** `s` spells `word` (given in lower case) up to ASCII case. */
  predicate SpellsIgnoringCase(s: string, word: string) {
    |s| == |word| && forall i :: 0 <= i < |s| ==> Lower(s[i]) == word[i]
  }

  /** A match of `Bearer\s` (ignoring case) starting at `i`. */
  predicate BearerAt(s: string, i: nat) {
    i + 7 <= |s| && SpellsIgnoringCase(s[i..i + 6], "bearer") && IsSpace(s[i + 6])
  }

  /** The leftmost position from `i` on where `Bearer\s` matches. */
  function FirstBearer(s: string, i: nat): (r: Option<nat>)
    ensures r.Some? ==> i <= r.value && BearerAt(s, r.value)
    ensures r.Some? ==> forall j :: i <= j < r.value ==> !BearerAt(s, j)
    ensures r.None? ==> forall j :: i <= j ==> !BearerAt(s, j)
    decreases |s| - i
  {
    if i + 7 > |s| then None
    else if BearerAt(s, i) then Some(i)
    else FirstBearer(s, i + 1)
  }

  /** The first capture of `/Bearer\s+(.*)$/i`: after the leftmost `Bearer` followed by
      white space, everything past that run of white space, possibly nothing. */
  function BearerToken(auth: string): (r: Option<string>)
    ensures r.None? <==> forall j :: 0 <= j ==> !BearerAt(auth, j)
    ensures r.Some? ==> |r.value| + 7 <= |auth| && r.value == auth[|auth| - |r.value|..]
    ensures r.Some? ==> r.value == [] || !IsSpace(r.value[0])
    ensures r.Some? ==> var j := FirstBearer(auth, 0);
      && j.Some? && j.value + 7 <= |auth| - |r.value|
      && forall k :: j.value + 6 <= k < |auth| - |r.value| ==> IsSpace(auth[k])
  {
    match FirstBearer(auth, 0)
    case None => None
    case Some(j) =>
      var rest := auth[j + 6..];
      var token := StripStart(rest, IsSpace);
      assert IsSpace(rest[0]) && token != rest;
      assert forall k :: j + 6 <= k < |auth| - |token| ==> auth[k] == rest[k - (j + 6)];
      Some(token)
  }

  /** `getApiKeyFromRequest()`: the `X-API-KEY` header when sent, else the bearer token
      of `Authorization`, else nothing. */
  function ProvidedKey(h: Headers): (r: Option<string>)
    ensures h.apiKey.Some? ==> r == h.apiKey
    ensures h.apiKey.None? && h.authorization.None? ==> r.None?
    ensures h.apiKey.None? && h.authorization.Some? ==> r == BearerToken(h.authorization.value)
  {
    if h.apiKey.Some? then h.apiKey
    else if h.authorization.Some? then BearerToken(h.authorization.value)
    else None
  }

  /** The health check: a GET of exactly `/`, compared on the raw URI. */
  predicate Exempt(req: Request) {
    req.uri == "/" && req.verb == "GET"
  }

  /** `handle($request, $next)`: the exempt request and a request carrying the key go
      on to `next`; every other request gets the 401 array and `next` is not called. */
  function Handle<T>(key: string, req: Request, h: Headers, next: Request -> T): (r: Outcome<T>)
    ensures r.Passed? <==> Exempt(req) || ProvidedKey(h) == Some(key)
    ensures r.Passed? ==> r.value == next(req)
    ensures r.Rejected? ==> r.response == UnauthorizedResponse
  {
    if Exempt(req) then Passed(next(req))
    else
      var provided := ProvidedKey(h);
      if provided.None? || provided.value != key then Rejected(UnauthorizedResponse)
      else Passed(next(req))
  }

  // ----- properties -----

  /** A token written after `Bearer ` in any letter case is read back unchanged. */
  lemma BearerRoundTrip(prefix: string, space: char, token: string)
    requires SpellsIgnoringCase(prefix, "bearer") && IsSpace(space)
    requires token == [] || !IsSpace(token[0])
    ensures BearerToken(prefix + [space] + token) == Some(token)
  {
    var s := prefix + [space] + token;
    assert s[0..6] == prefix;
    assert BearerAt(s, 0);
    assert s[6..] == [space] + token;
  }

  /** The `X-API-KEY` header carrying the key lets the request through, whatever
      `Authorization` says. */
  lemma ApiKeyHeaderCarriesTheKey<T>(key: string, req: Request, auth: Option<string>, next: Request -> T)
    ensures Handle(key, req, Headers(Some(key), auth), next) == Passed(next(req))
  {
  }

  /** So does `Authorization: Bearer <key>`, for a key that does not start with white
      space. */
  lemma BearerCarriesTheKey<T>(key: string, req: Request, next: Request -> T)
    requires key == [] || !IsSpace(key[0])
    ensures Handle(key, req, Headers(None, Some("Bearer " + key)), next) == Passed(next(req))
  {
    BearerSpelled();
    BearerRoundTrip("Bearer", ' ', key);
    BearerGlue(key);
  }

  lemma BearerSpelled()
    ensures SpellsIgnoringCase("Bearer", "bearer") && IsSpace(' ')
  {
  }

  lemma BearerGlue(key: string)
    ensures "Bearer" + [' '] + key == "Bearer " + key
  {
  }

  /** The exemption is on the raw URI: the health check with a query string needs the
      key like every other request. */
  lemma QueryStringIsNotExempt<T>(key: string, query: string, h: Headers, next: Request -> T)
    requires query != []
    ensures Handle(key, Request("GET", "/" + query), h, next).Rejected?
      <==> ProvidedKey(h) != Some(key)
  {
  }

  /** With an empty configured key, an empty `X-API-KEY` header is accepted. */
  lemma EmptyKeyAcceptsEmptyHeader<T>(req: Request, auth: Option<string>, next: Request -> T)
    ensures Handle("", req, Headers(Some(""), auth), next).Passed?
  {
  }

  /** An `Authorization` header that is not a bearer token never authenticates. */
  lemma NoBearerNoAccess<T>(key: string, req: Request, auth: string, next: Request -> T)
    requires !Exempt(req)
    requires forall j :: 0 <= j ==> !BearerAt(auth, j)
    ensures Handle(key, req, Headers(None, Some(auth)), next) == Rejected(UnauthorizedResponse)
  {
  }
}
