/**
 The removal use case (src/Application/UseCase/DeleteProduct.php): a soft delete that
 moves a stored product to the trash.
 */
module DeleteProduct {
  import opened Core
  import opened ProductCodes
  import opened ProductStatuses
  import opened Products
  import PR = ProductRepository
  import GetProduct
  import ProductDTOs

  /** `execute($code)`: the code check throws for a code that is not positive; an
      unknown code gives `false` and changes nothing; a stored one is moved to the trash,
      row kept, and gives `true`. */
  function Execute(s: PR.ProductStore, code: int): (r: Result<(PR.ProductStore, bool)>)
    ensures code <= 0 ==> r == Failure(InvalidArgument(NotPositiveMessage))
    ensures code > 0 ==> r.Success? && (r.value.1 <==> code in s)
    ensures code > 0 && code !in s ==> r.value.0 == s
    ensures code > 0 && code in s ==> r.value.0 == s[code := MoveToTrash(s[code])]
  {
    match FromInt(code)
    case Failure(e) => Failure(e)
    case Success(c) =>
      if !PR.Exists(s, c) then Success((s, false))
      else
        var s' := PR.Delete(s, c);
        assert s' == s[code := MoveToTrash(s[code])];
        Success((s', true))
  }

  // ----- properties -----

  /** A deleted product is still found, in the trash, with everything else as it was. */
  lemma DeletedIsStillFound(s: PR.ProductStore, code: int)
    requires code in s
    ensures var after := Execute(s, code).value.0;
      && GetProduct.Execute(after, code) == Success(Some(ProductDTOs.FromEntity(MoveToTrash(s[code]))))
      && after[code].status == Trash
      && after[code].attrs == s[code].attrs
  {
  }

  /** Deleting is idempotent and keeps reporting success: a second delete of the same
      code finds the row again and leaves the catalog as the first left it. */
  lemma DeleteTwice(s: PR.ProductStore, code: int)
    requires code in s
    ensures var once := Execute(s, code).value.0;
      Execute(once, code) == Success((once, true))
  {
    var once := Execute(s, code).value.0;
    assert once[code := MoveToTrash(once[code])] == once;
  }
}
