/**
 The route table of the HTTP entry point (public/index.php): which handler each method
 and path reach.
 */
module Endpoints {
  import opened Core
  import Router

  /** The handlers of the route table. */
  datatype Endpoint = Health | ListProducts | ShowProduct | UpdateProduct | DeleteProduct

  const ProductsPattern: string := "/products"
  /** `/products/:code`, written as its fixed part and the placeholder. */
  const ProductPrefix: string := "/products/"
  const ProductPattern: string := ProductPrefix + [':'] + "code"

  /** The route table of the entry point, with its two fixed texts and the placeholder
      name as parameters so that its properties are proved once for any such texts. */
  function Table(products: string, prefix: string, name: string): (r: seq<Router.Route<Endpoint>>)
    ensures |r| == 5
  {
    var product := prefix + [':'] + name;
    var r := Router.Get([], "/", Health);
    var r := Router.Get(r, products, ListProducts);
    var r := Router.Get(r, product, ShowProduct);
    var r := Router.Put(r, product, UpdateProduct);
    Router.Delete(r, product, DeleteProduct)
  }

  /** The routes, in the order the entry point registers them. */
  function Routes(): seq<Router.Route<Endpoint>> {
    Table(ProductsPattern, ProductPrefix, "code")
  }

  /** Text that holds no placeholder, no query or fragment delimiter and no control
      character. */
  predicate Plain(p: string) {
    ':' !in p && '?' !in p && '#' !in p && Router.Clean(p)
  }

  predicate IsName(name: string) {
    |name| > 0 && forall i :: 0 <= i < |name| ==> Router.IsWordChar(name[i])
  }

  /** What the entry point's own texts satisfy. */
  lemma TextsFit()
    ensures Plain(ProductsPattern) && Plain(ProductPrefix) && IsName("code")
    ensures ProductsPattern != "/" && ProductPrefix != "/" && |ProductPrefix| > |ProductsPattern|
    ensures ProductPattern == ProductPrefix + [':'] + "code"
  {
  }

  // ----- the route table -----

  /** The route table, entry by entry. */
  lemma TableEntries(products: string, prefix: string, name: string)
    ensures var product := prefix + [':'] + name;
      Table(products, prefix, name) == [Router.Route("GET", "/", Health), Router.Route("GET", products, ListProducts),
                                        Router.Route("GET", product, ShowProduct), Router.Route("PUT", product, UpdateProduct),
                                        Router.Route("DELETE", product, DeleteProduct)]
  {
  }

  /** The handler each method reaches on `/products/:code`. */
  function ProductEndpoint(verb: string): Endpoint {
    if verb == "GET" then ShowProduct else if verb == "PUT" then UpdateProduct else DeleteProduct
  }

  /** The fixed list pattern takes its own path, the health pattern does not. */
  lemma ListPathTakes(products: string, prefix: string, name: string)
    requires Plain(products) && products != "/"
    ensures var routes := Table(products, prefix, name);
      Router.Takes(routes[1], "GET", products) && !Router.Takes(routes[0], "GET", products)
  {
    TableEntries(products, prefix, name);
    Router.FixedPattern("/", products);
    Router.FixedPattern(products, products);
  }

  /** The list path with any query string goes to the list handler. */
  lemma TableListRoute(products: string, prefix: string, name: string, suffix: string)
    requires Plain(products) && products != "/"
    requires suffix == [] || suffix[0] == '?' || suffix[0] == '#'
    ensures Router.Dispatch(Table(products, prefix, name), "GET", products + suffix) == Router.Call(ListProducts, [])
  {
    Router.PathOfPath(products, suffix);
    Router.ScrubbedOfClean(products);
    ListPathTakes(products, prefix, name);
    TableEntries(products, prefix, name);
    Router.FixedPattern(products, products);
    Router.DispatchTo(Table(products, prefix, name), "GET", products + suffix, 1);
  }

  /** `/products` with any query string lists the catalog. */
  lemma ListRoute(suffix: string)
    requires suffix == [] || suffix[0] == '?' || suffix[0] == '#'
    ensures Router.Dispatch(Routes(), "GET", ProductsPattern + suffix) == Router.Call(ListProducts, [])
  {
    TextsFit();
    TableListRoute(ProductsPattern, ProductPrefix, "code", suffix);
  }

  /** On a product path, the fixed patterns never take it and the product pattern
      captures the segment. */
  lemma ProductPathTakes(products: string, prefix: string, name: string, segment: string)
    requires Plain(prefix) && IsName(name) && |prefix| > |products| && Router.IsSegment(segment)
    ensures var path := prefix + segment;
      && path != "/" && path != products
      && Router.Match(Router.Compile(prefix + [':'] + name), path) == Some([segment])
  {
    var path := prefix + segment;
    assert |path| > |products|;
    assert |path| >= 2 by {
      assert |prefix| >= 1;
    }
    assert path[..|prefix|] == prefix && path[|prefix|..] == segment;
    Router.TrailingPlaceholder(prefix, name, path);
  }

  lemma TableProductRoute(products: string, prefix: string, name: string, verb: string, segment: string, suffix: string)
    requires Plain(products) && Plain(prefix) && IsName(name) && |prefix| > |products|
    requires verb in {"GET", "PUT", "DELETE"}
    requires Router.IsSegment(segment) && '?' !in segment && '#' !in segment
    requires suffix == [] || suffix[0] == '?' || suffix[0] == '#'
    ensures Router.Dispatch(Table(products, prefix, name), verb, prefix + segment + suffix)
      == Router.Call(ProductEndpoint(verb), [Router.Scrubbed(segment)])
  {
    var path := prefix + segment;
    var clean := Router.Scrubbed(segment);
    PlainJoin(prefix, segment);
    Router.PathOfPath(path, suffix);
    Router.ScrubbedAppend(prefix, segment);
    Router.ScrubbedOfClean(prefix);
    Router.ScrubbedSegment(segment);
    assert Router.Path(path + suffix) == prefix + clean;
    var j := ProductRouteIndex(verb);
    ProductRouteTakes(products, prefix, name, verb, clean);
    Router.DispatchTo(Table(products, prefix, name), verb, path + suffix, j);
    TableEntries(products, prefix, name);
  }

  function ProductRouteIndex(verb: string): nat {
    if verb == "GET" then 2 else if verb == "PUT" then 3 else 4
  }

  /** On a product path, the product route of the method is the first that takes it. */
  lemma ProductRouteTakes(products: string, prefix: string, name: string, verb: string, segment: string)
    requires Plain(products) && Plain(prefix) && IsName(name) && |prefix| > |products|
    requires verb in {"GET", "PUT", "DELETE"}
    requires Router.IsSegment(segment)
    ensures var routes := Table(products, prefix, name);
      var j := ProductRouteIndex(verb);
      && j < |routes|
      && Router.Takes(routes[j], verb, prefix + segment)
      && Router.Match(Router.Compile(routes[j].pattern), prefix + segment) == Some([segment])
      && routes[j].handler == ProductEndpoint(verb)
      && forall k :: 0 <= k < j ==> !Router.Takes(routes[k], verb, prefix + segment)
  {
    var path := prefix + segment;
    ProductPathTakes(products, prefix, name, segment);
    Router.FixedPattern("/", path);
    Router.FixedPattern(products, path);
    TableEntries(products, prefix, name);
  }

  lemma PlainJoin(prefix: string, segment: string)
    requires Plain(prefix) && '?' !in segment && '#' !in segment
    ensures '?' !in prefix + segment && '#' !in prefix + segment
  {
  }

  /** `/products/<segment>` with any query string goes to the product route of its
      method, with the segment as the only argument. */
  lemma ProductRoute(verb: string, segment: string, suffix: string)
    requires verb in {"GET", "PUT", "DELETE"}
    requires Router.IsSegment(segment) && '?' !in segment && '#' !in segment
    requires suffix == [] || suffix[0] == '?' || suffix[0] == '#'
    ensures Router.Dispatch(Routes(), verb, ProductPrefix + segment + suffix)
      == Router.Call(ProductEndpoint(verb), [Router.Scrubbed(segment)])
  {
    TextsFit();
    TableProductRoute(ProductsPattern, ProductPrefix, "code", verb, segment, suffix);
  }

  /** The product prefix with the code left out reaches no route. */
  lemma TableNoRouteForBarePrefix(products: string, prefix: string, name: string)
    requires Plain(products) && Plain(prefix) && IsName(name) && |prefix| > |products| && prefix != "/"
    ensures Router.Dispatch(Table(products, prefix, name), "GET", prefix).NoRoute?
  {
    Router.PathOfPath(prefix, []);
    Router.ScrubbedOfClean(prefix);
    assert prefix + [] == prefix;
    assert prefix != products by {
      assert |prefix| > |products|;
    }
    Router.FixedPattern("/", prefix);
    Router.FixedPattern(products, prefix);
    Router.TrailingPlaceholder(prefix, name, prefix);
    TableEntries(products, prefix, name);
  }

  /** `/products/` with the code left out reaches no route. */
  lemma NoRouteForEmptyCode()
    ensures Router.Dispatch(Routes(), "GET", ProductPrefix).NoRoute?
  {
    TextsFit();
    TableNoRouteForBarePrefix(ProductsPattern, ProductPrefix, "code");
  }
}
