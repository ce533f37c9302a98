/**
 The HTTP entry point (public/index.php) as one function of the catalog: the route
 table, the placeholder cast to an integer code, the API key check in front of the
 router, and the status and body of the answer.
 */
module App {
  import opened Core
  import opened Text
  import opened Products
  import PR = ProductRepository
  import Router
  import M = ApiKeyMiddleware
  import C = ProductController
  import opened Endpoints

  /** Everything a request brings: the method and raw URI, the two key headers, the
      query parameters and the decoded body (`json_decode(…) ?? []`). */
  datatype Input = Input(request: M.Request, headers: M.Headers, query: C.Query, body: Payload)

  /** The first placeholder value, as the handler closures receive it. */
  function CodeArg(args: seq<string>): (r: int)
    ensures PhpIntMin <= r <= PhpIntMax
    ensures args == [] || !HasNumericPrefix(args[0]) ==> r == 0
  {
    if args == [] then 0 else IntCast(args[0])
  }

  /** Running a handler on the catalog: the catalog after it, and what it returned or
      threw. The health answer is an input: its controller is not part of this model. */
  function RunHandler(e: Endpoint, args: seq<string>, s: PR.ProductStore, input: Input, health: Response): (r: (PR.ProductStore, Result<Response>))
    ensures e == Health ==> r == (s, Success(health))
    ensures e !in {UpdateProduct, DeleteProduct} ==> r.0 == s
    ensures r.1.Failure? ==> r.0 == s
  {
    match e
    case Health => (s, Success(health))
    case ListProducts => (s, Success(C.Index(s, input.query)))
    case ShowProduct => (s, C.Show(s, CodeArg(args)))
    case UpdateProduct =>
      var (s', resp) := C.Update(s, CodeArg(args), input.body);
      (s', Success(resp))
    case DeleteProduct =>
      match C.Delete(s, CodeArg(args))
      case Success((s', resp)) => (s', Success(resp))
      case Failure(e) => (s, Failure(e))
  }

  /** `$router->run()`: dispatch, then the handler's answer, or 500 when it threw. Only
      a PUT or a DELETE can change the catalog. */
  function RunRouter(s: PR.ProductStore, input: Input, health: Response): (r: (PR.ProductStore, Response))
    ensures input.request.verb != "PUT" && input.request.verb != "DELETE" ==> r.0 == s
  {
    match Router.Dispatch(Routes(), input.request.verb, input.request.uri)
    case NoRoute => (s, Router.NoRouteResponse)
    case Call(e, args) =>
      WritersAreWrites(input.request.verb, input.request.uri);
      var (s', out) := RunHandler(e, args, s, input, health);
      (s', Router.Respond(out))
  }

  /** The handlers that write are reached only by PUT and DELETE. */
  lemma WritersAreWrites(verb: string, uri: string)
    requires Router.Dispatch(Routes(), verb, uri).Call?
    ensures Router.Dispatch(Routes(), verb, uri).handler in {UpdateProduct, DeleteProduct} ==>
      verb == "PUT" || verb == "DELETE"
  {
    TableEntries(ProductsPattern, ProductPrefix, "code");
    var j :| 0 <= j < |Routes()| && Router.Takes(Routes()[j], verb, Router.Path(uri))
      && Router.Dispatch(Routes(), verb, uri).handler == Routes()[j].handler;
  }

  /** One request: the key check, then the router. */
  function Serve(s: PR.ProductStore, key: string, input: Input, health: Response): (r: (PR.ProductStore, Response))
    ensures !M.Exempt(input.request) && M.ProvidedKey(input.headers) != Some(key) ==>
      r == (s, M.UnauthorizedResponse)
    ensures M.Exempt(input.request) || M.ProvidedKey(input.headers) == Some(key) ==>
      r == RunRouter(s, input, health)
  {
    match M.Handle(key, input.request, input.headers, _ => RunRouter(s, input, health))
    case Passed(out) => out
    case Rejected(resp) => (s, resp)
  }

  // ----- end to end -----

  /** Without the key, nothing but the health check is answered, and the catalog is
      not touched. */
  lemma KeyIsRequired(s: PR.ProductStore, key: string, input: Input, health: Response)
    requires !M.Exempt(input.request) && M.ProvidedKey(input.headers) != Some(key)
    ensures Serve(s, key, input, health) == (s, M.UnauthorizedResponse)
  {
  }

  /** With the key, a request to `/products/<segment>` runs the handler of its method
      on that segment. */
  lemma ServesProductRoute(s: PR.ProductStore, key: string, input: Input, health: Response, segment: string, suffix: string)
    requires Router.IsSegment(segment) && '?' !in segment && '#' !in segment
    requires suffix == [] || suffix[0] == '?' || suffix[0] == '#'
    requires input.request.verb in {"GET", "PUT", "DELETE"}
    requires input.request.uri == ProductPrefix + segment + suffix
    requires M.ProvidedKey(input.headers) == Some(key)
    ensures var (s', out) := RunHandler(ProductEndpoint(input.request.verb), [Router.Scrubbed(segment)], s, input, health);
      Serve(s, key, input, health) == (s', Router.Respond(out))
  {
    ProductRoute(input.request.verb, segment, suffix);
  }

  /** With the key, `GET /products/<code>` answers the product's array, or 404 for a
      code with no product. */
  lemma ShowByUrl(s: PR.ProductStore, key: string, input: Input, health: Response, code: int, suffix: string)
    requires 1 <= code <= PhpIntMax
    requires suffix == [] || suffix[0] == '?' || suffix[0] == '#'
    requires input.request == M.Request("GET", ProductPrefix + IntToString(code) + suffix)
    requires M.ProvidedKey(input.headers) == Some(key)
    ensures Serve(s, key, input, health).0 == s
    ensures code in s ==> Serve(s, key, input, health).1 == Response(200, JObject(Products.ToArray(s[code])))
    ensures code !in s ==> Serve(s, key, input, health).1 == Response(404, C.NotFound(code))
  {
    CodeOfSegment(code);
    Router.ScrubbedOfClean(IntToString(code));
    ShowBySegment(s, key, input, health, IntToString(code), code, suffix);
  }

  /** `ShowByUrl` for any segment that reads as the code. */
  lemma ShowBySegment(s: PR.ProductStore, key: string, input: Input, health: Response, seg: string, code: int, suffix: string)
    requires Router.IsSegment(seg) && '?' !in seg && '#' !in seg && CodeArg([Router.Scrubbed(seg)]) == code && 1 <= code
    requires suffix == [] || suffix[0] == '?' || suffix[0] == '#'
    requires input.request == M.Request("GET", ProductPrefix + seg + suffix)
    requires M.ProvidedKey(input.headers) == Some(key)
    ensures Serve(s, key, input, health).0 == s
    ensures code in s ==> Serve(s, key, input, health).1 == Response(200, JObject(Products.ToArray(s[code])))
    ensures code !in s ==> Serve(s, key, input, health).1 == Response(404, C.NotFound(code))
  {
    ServesProductRoute(s, key, input, health, seg, suffix);
    assert RunHandler(ShowProduct, [Router.Scrubbed(seg)], s, input, health) == (s, C.Show(s, code));
  }

  /** The rendering of a code is a segment that reads back as that code. */
  lemma CodeOfSegment(code: int)
    requires PhpIntMin <= code <= PhpIntMax
    ensures var seg := IntToString(code);
      Router.IsSegment(seg) && '?' !in seg && '#' !in seg && Router.Clean(seg) && CodeArg([seg]) == code
  {
    var seg := IntToString(code);
    assert '/' !in seg && '?' !in seg && '#' !in seg && Router.Clean(seg) by {
      assert forall i :: 0 <= i < |seg| ==> IsDigit(seg[i]) || (i == 0 && seg[i] == '-');
    }
    IntCastOfRendering(code);
  }

  /** A code that is not positive, or a segment that does not read as one, makes `show`
      and `delete` throw, which the router turns into 500; `update` catches the same
      exception and answers 400. */
  lemma BadCodeAnswers(s: PR.ProductStore, key: string, input: Input, health: Response, segment: string)
    requires Router.IsSegment(segment) && '?' !in segment && '#' !in segment
    requires IntCast(Router.Scrubbed(segment)) <= 0
    requires input.request.verb in {"GET", "PUT", "DELETE"}
    requires input.request.uri == ProductPrefix + segment
    requires M.ProvidedKey(input.headers) == Some(key)
    ensures Serve(s, key, input, health).0 == s
    ensures Serve(s, key, input, health).1 == (if input.request.verb == "PUT"
      then Response(400, ErrorBody("Bad Request", ProductCodes.NotPositiveMessage))
      else Router.ServerErrorResponse)
  {
    assert ProductPrefix + segment + [] == ProductPrefix + segment;
    ServesProductRoute(s, key, input, health, segment, []);
    HandlersRejectBadCode(ProductEndpoint(input.request.verb), [Router.Scrubbed(segment)], s, input, health);
  }

  /** The product handlers on a code that is not positive: `show` and `delete` throw,
      `update` answers 400, and the catalog is untouched. */
  lemma HandlersRejectBadCode(e: Endpoint, args: seq<string>, s: PR.ProductStore, input: Input, health: Response)
    requires e in {ShowProduct, UpdateProduct, DeleteProduct}
    requires CodeArg(args) <= 0
    ensures RunHandler(e, args, s, input, health).0 == s
    ensures e == UpdateProduct ==>
      RunHandler(e, args, s, input, health).1 == Success(Response(400, ErrorBody("Bad Request", ProductCodes.NotPositiveMessage)))
    ensures e != UpdateProduct ==> RunHandler(e, args, s, input, health).1.Failure?
  {
  }

  /** A path that no pattern matches gets the router's 404: here the product route
      with its segment left out. */
  lemma UnknownPathIsNotFound(s: PR.ProductStore, key: string, input: Input, health: Response)
    requires input.request == M.Request("GET", ProductPrefix)
    requires M.ProvidedKey(input.headers) == Some(key)
    ensures Serve(s, key, input, health) == (s, Router.NoRouteResponse)
  {
    NoRouteForEmptyCode();
  }
}
