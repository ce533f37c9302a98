/**
 The read use case (src/Application/UseCase/GetProduct.php): one product by code, as a
 DTO, or nothing.
 */
module GetProduct {
  import opened Core
  import opened ProductCodes
  import opened ProductDTOs
  import PR = ProductRepository

  /** `execute($code)`: the code check throws for a code that is not positive; otherwise
      the DTO of the stored product, or none when the code is not stored. */
  function Execute(s: PR.ProductStore, code: int): (r: Result<Option<ProductDTO>>)
    ensures code <= 0 ==> r == Failure(InvalidArgument(NotPositiveMessage))
    ensures code > 0 ==> r.Success? && (r.value.None? <==> code !in s)
    ensures code > 0 && code in s ==> r.value == Some(FromEntity(s[code]))
  {
    match FromInt(code)
    case Failure(e) => Failure(e)
    case Success(c) =>
      match PR.FindByCode(s, c)
      case None => Success(None)
      case Some(p) => Success(Some(FromEntity(p)))
  }
}
