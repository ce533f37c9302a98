/**
 The edit use case (src/Application/UseCase/UpdateProduct.php): apply a request body
 to a stored product and write it back.
 */
module UpdateProduct {
  import opened Core
  import opened ProductCodes
  import opened Products
  import opened ProductDTOs
  import PR = ProductRepository
  import GetProduct

  /** `execute($code, $data)`: the code check throws for a code that is not positive;
      an unknown code changes nothing and gives no DTO; otherwise the product takes the
      payload, is written back, and its DTO is returned. */
  function Execute(s: PR.ProductStore, code: int, data: Payload): (r: Result<(PR.ProductStore, Option<ProductDTO>)>)
    ensures code <= 0 ==> r == Failure(InvalidArgument(NotPositiveMessage))
    ensures code > 0 ==> r.Success? && (r.value.1.None? <==> code !in s)
    ensures code > 0 && code !in s ==> r.value.0 == s
    ensures code > 0 && code in s ==>
      r.value.0 == s[code := Products.Update(s[code], data)]
      && r.value.1 == Some(FromEntity(Products.Update(s[code], data)))
  {
    match FromInt(code)
    case Failure(e) => Failure(e)
    case Success(c) =>
      match PR.FindByCode(s, c)
      case None => Success((s, None))
      case Some(p) =>
        var q := Products.Update(p, data);
        var s' := PR.Update(s, q);
        assert s' == s[code := q];
        Success((s', Some(FromEntity(q))))
  }

  // ----- properties -----

  /** What the update returns is what a later read of the same code returns. */
  lemma UpdateThenGet(s: PR.ProductStore, code: int, data: Payload)
    requires Execute(s, code, data).Success?
    ensures var (after, dto) := Execute(s, code, data).value;
      GetProduct.Execute(after, code) == Success(dto)
  {
  }

  /** Sending the same body twice leaves the catalog as sending it once. */
  lemma UpdateTwiceIsUpdateOnce(s: PR.ProductStore, code: int, data: Payload)
    requires Execute(s, code, data).Success?
    ensures var once := Execute(s, code, data).value;
      Execute(once.0, code, data) == Success(once)
  {
    if code in s {
      var once := Execute(s, code, data).value.0;
      UpdateIdempotent(s[code], data);
      assert once[code] == Products.Update(s[code], data);
      assert once[code := Products.Update(once[code], data)] == once;
    }
  }
}
