/**
 The product endpoints (src/Presentation/Controller/ProductController.php): reading the
 query parameters, calling the use cases and choosing the status code and body of each
 response.
 */
module ProductController {
  import opened Core
  import opened Text
  import opened ProductCodes
  import opened ProductStatuses
  import opened Products
  import opened ProductDTOs
  import PaginationDTOs
  import PR = ProductRepository
  import GetProduct
  import UpdateProduct
  import DeleteProduct
  import ListProducts

  /** The query string parameters (`$_GET`). */
  type Query = map<string, string>

  const DefaultPage: int := 1
  const DefaultLimit: int := 20
  const MaxLimit: int := 100

  const UpdatedMessage: string := "Product updated successfully"
  const TrashedMessage: string := "Product moved to trash successfully"

  /** The 404 body for a code with no product. */
  function NotFound(code: int): Json {
    ErrorBody("Not Found", "Product with code " + IntToString(code) + " not found")
  }

  /** The `page` parameter: its `(int)` reading raised to at least 1, or 1 when absent. */
  function PageParam(q: Query): (page: int)
    ensures page >= 1
    ensures "page" !in q ==> page == DefaultPage
    ensures "page" in q && IntCast(q["page"]) >= 1 ==> page == IntCast(q["page"])
  {
    if "page" in q then (if IntCast(q["page"]) < 1 then 1 else IntCast(q["page"])) else DefaultPage
  }

  /** The `limit` parameter: its `(int)` reading clamped to 1..100, or 20 when absent. */
  function LimitParam(q: Query): (limit: int)
    ensures 1 <= limit <= MaxLimit
    ensures "limit" !in q ==> limit == DefaultLimit
    ensures "limit" in q && 1 <= IntCast(q["limit"]) <= MaxLimit ==> limit == IntCast(q["limit"])
    ensures "limit" in q && IntCast(q["limit"]) > MaxLimit ==> limit == MaxLimit
    ensures "limit" in q && IntCast(q["limit"]) < 1 ==> limit == 1
  {
    if "limit" in q then
      var n := IntCast(q["limit"]);
      if n < 1 then 1 else if n > MaxLimit then MaxLimit else n
    else DefaultLimit
  }

  /** The arrays of a page of DTOs, in order (`array_map` of `toArray`). */
  function Items(dtos: seq<ProductDTO>): (r: seq<Json>)
    ensures |r| == |dtos|
    ensures forall i :: 0 <= i < |dtos| ==> r[i] == JObject(ProductDTOs.ToArray(dtos[i]))
  {
    seq(|dtos|, i requires 0 <= i < |dtos| => JObject(ProductDTOs.ToArray(dtos[i])))
  }

  /** `index($params)`: a page of at most `limit` product arrays and the pagination for
      the page and limit read from the query. */
  function Index(s: PR.ProductStore, q: Query): (r: Response)
    ensures r.status == 200 && r.body.JObject?
    ensures KeysOf(r.body.entries) == ["data", "pagination"]
    ensures r.body.entries[0].1.JList? && |r.body.entries[0].1.items| <= LimitParam(q)
    ensures r.body.entries[1].1
      == JObject(PaginationDTOs.ToArray(PaginationDTOs.New(PageParam(q), LimitParam(q), |s.Keys|)))
  {
    var l := ListProducts.Execute(s, PageParam(q), LimitParam(q));
    var data := JList(Items(l.products));
    var pagination := JObject(PaginationDTOs.ToArray(l.pagination));
    KeysOfTwo("data", data, "pagination", pagination);
    Response(200, JObject([("data", data), ("pagination", pagination)]))
  }

  /** `show($code)`: the product's array, or 404 when no product has the code; the
      exception for a code that is not positive is not caught here. */
  function Show(s: PR.ProductStore, code: int): (r: Result<Response>)
    ensures code <= 0 ==> r == Failure(InvalidArgument(NotPositiveMessage))
    ensures code > 0 && code !in s ==> r == Success(Response(404, NotFound(code)))
    ensures code > 0 && code in s ==> r == Success(Response(200, JObject(Products.ToArray(s[code]))))
  {
    match GetProduct.Execute(s, code)
    case Failure(e) => Failure(e)
    case Success(None) => Success(Response(404, NotFound(code)))
    case Success(Some(dto)) =>
      ArrayOfEntity(s[code]);
      Success(Response(200, JObject(ProductDTOs.ToArray(dto))))
  }

  /** `update($code, $data)`: every exception becomes a 400 carrying its message; an
      unknown code gives 404; otherwise the edited product is stored and returned under
      the success message. */
  function Update(s: PR.ProductStore, code: int, data: Payload): (r: (PR.ProductStore, Response))
    ensures code <= 0 ==> r == (s, Response(400, ErrorBody("Bad Request", NotPositiveMessage)))
    ensures code > 0 && code !in s ==> r == (s, Response(404, NotFound(code)))
    ensures code > 0 && code in s ==>
      && r.0 == s[code := Products.Update(s[code], data)]
      && r.1 == Response(200, JObject([("message", JString(UpdatedMessage)),
                                      ("data", JObject(Products.ToArray(r.0[code])))]))
  {
    match UpdateProduct.Execute(s, code, data)
    case Failure(e) => (s, Response(400, ErrorBody("Bad Request", e.message)))
    case Success((s', None)) => (s', Response(404, NotFound(code)))
    case Success((s', Some(dto))) =>
      ArrayOfEntity(s'[code]);
      (s', Response(200, JObject([("message", JString(UpdatedMessage)),
                                  ("data", JObject(ProductDTOs.ToArray(dto)))])))
  }

  /** `delete($code)`: 404 for an unknown code; otherwise the product goes to the trash
      and the response says so; the exception for a code that is not positive is not
      caught here. */
  function Delete(s: PR.ProductStore, code: int): (r: Result<(PR.ProductStore, Response)>)
    ensures code <= 0 ==> r == Failure(InvalidArgument(NotPositiveMessage))
    ensures code > 0 && code !in s ==> r == Success((s, Response(404, NotFound(code))))
    ensures code > 0 && code in s ==>
      r == Success((s[code := MoveToTrash(s[code])],
                    Response(200, JObject([("message", JString(TrashedMessage))]))))
  {
    match DeleteProduct.Execute(s, code)
    case Failure(e) => Failure(e)
    case Success((s', false)) => Success((s', Response(404, NotFound(code))))
    case Success((s', true)) => Success((s', Response(200, JObject([("message", JString(TrashedMessage))]))))
  }

  // ----- properties -----

  /** A query naming a page and a limit the controller accepts reads them back exactly:
      the `(int)` cast undoes the decimal rendering. */
  lemma QueryReadsBack(q: Query, page: int, limit: int)
    requires 1 <= page <= PhpIntMax && 1 <= limit <= MaxLimit
    requires "page" in q && q["page"] == IntToString(page)
    requires "limit" in q && q["limit"] == IntToString(limit)
    ensures PageParam(q) == page && LimitParam(q) == limit
  {
    IntCastOfRendering(page);
    IntCastOfRendering(limit);
  }

  /** The data of `index` is the stored page, as the products' own arrays, highest
      code first. */
  lemma {:induction false} IndexListsThePage(s: PR.ProductStore, q: Query)
    ensures var rows := PR.FindAll(s, PageParam(q), LimitParam(q));
      var items := Index(s, q).body.entries[0].1.items;
      |items| == |rows| && forall i :: 0 <= i < |rows| ==> items[i] == JObject(Products.ToArray(rows[i]))
  {
    var rows := PR.FindAll(s, PageParam(q), LimitParam(q));
    var items := Index(s, q).body.entries[0].1.items;
    var dtos := ListProducts.Execute(s, PageParam(q), LimitParam(q)).products;
    assert items == Items(dtos);
    forall i | 0 <= i < |rows|
      ensures items[i] == JObject(Products.ToArray(rows[i]))
    {
      assert dtos[i] == FromEntity(rows[i]);
      ArrayOfEntity(rows[i]);
    }
  }

  /** For a stored code, what `update` answers is what a later `show` of the same code
      answers. */
  lemma UpdateThenShow(s: PR.ProductStore, code: int, data: Payload)
    requires code > 0 && code in s
    ensures var (after, resp) := Update(s, code, data);
      && resp.status == 200
      && Show(after, code) == Success(Response(200, Get(resp.body.entries, "data").value))
  {
  }

  /** After a successful `delete`, `show` still finds the product, now in the trash. */
  lemma DeleteThenShow(s: PR.ProductStore, code: int)
    requires Delete(s, code).Success? && Delete(s, code).value.1.status == 200
    ensures var after := Delete(s, code).value.0;
      var shown := Show(after, code);
      && shown.Success? && shown.value.status == 200 && shown.value.body.JObject?
      && Get(shown.value.body.entries, "status") == Some(JString(Value(Trash)))
  {
    var after := Delete(s, code).value.0;
    var e := Products.ToArray(after[code]);
    assert e[..3][1] == ("status", JString(Value(Trash)));
    assert e[0].0 != "status";
  }

  /** The endpoints answer only 200, 400 or 404; every other status comes from the
      router. */
  lemma StatusesAreKnown(s: PR.ProductStore, code: int, data: Payload)
    ensures Show(s, code).Success? ==> Show(s, code).value.status in {200, 404}
    ensures Update(s, code, data).1.status in {200, 400, 404}
    ensures Delete(s, code).Success? ==> Delete(s, code).value.1.status in {200, 404}
  {
  }
}
