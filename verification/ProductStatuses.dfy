/**
 The product status value object (src/Domain/ValueObject/ProductStatus.php): a closed
 set of three statuses, each carried as its string value.
 */
module ProductStatuses {
  import opened Core

  datatype ProductStatus = Draft | Trash | Published

  /** The strings the constructor accepts, in the order the error message lists them. */
  const ValidStatuses: seq<string> := ["draft", "trash", "published"]

  /** `getValue()`: the string each status carries. */
  function Value(s: ProductStatus): (v: string)
    ensures v in ValidStatuses
  {
    match s
    case Draft => "draft"
    case Trash => "trash"
    case Published => "published"
  }

  /** `fromString`: the private constructor's membership check. */
  function FromString(v: string): (r: Result<ProductStatus>)
    ensures r.Success? <==> v in ValidStatuses
    ensures r.Success? ==> Value(r.value) == v
    ensures r.Failure? ==>
      r.error == InvalidArgument("Invalid status: " + v + ". Valid statuses are: draft, trash, published")
  {
    if v == "draft" then Success(Draft)
    else if v == "trash" then Success(Trash)
    else if v == "published" then Success(Published)
    else Failure(InvalidArgument("Invalid status: " + v + ". Valid statuses are: draft, trash, published"))
  }

  predicate IsDraft(s: ProductStatus) {
    Value(s) == "draft"
  }

  predicate IsTrash(s: ProductStatus) {
    Value(s) == "trash"
  }

  predicate IsPublished(s: ProductStatus) {
    Value(s) == "published"
  }

  /** `equals`: comparison of the carried strings. */
  predicate Equals(a: ProductStatus, b: ProductStatus) {
    Value(a) == Value(b)
  }

  /** `__toString`. */
  function ToString(s: ProductStatus): string {
    Value(s)
  }

  /** Exactly one of the three predicates holds of every status. */
  lemma ExactlyOnePredicate(s: ProductStatus)
    ensures IsDraft(s) || IsTrash(s) || IsPublished(s)
    ensures !(IsDraft(s) && IsTrash(s)) && !(IsDraft(s) && IsPublished(s)) && !(IsTrash(s) && IsPublished(s))
  {
  }

  /** Comparing values is the same as comparing statuses: the values are distinct. */
  lemma EqualsIsSameStatus(a: ProductStatus, b: ProductStatus)
    ensures Equals(a, b) <==> a == b
  {
  }

  /** Reading back the value of a status, or its string form, yields that status. */
  lemma FromStringOfValue(s: ProductStatus)
    ensures FromString(Value(s)) == Success(s)
    ensures FromString(ToString(s)) == Success(s)
  {
  }
}
