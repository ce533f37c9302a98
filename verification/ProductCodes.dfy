/**
 The product code value object (src/Domain/ValueObject/ProductCode.php): a positive
 integer, built from an int or from a numeric string.
 */
module ProductCodes {
  import opened Core
  import opened Text

  type Positive = n: int | n > 0 witness 1

  /** A code whose constructor check has passed: the value is always positive. */
  datatype ProductCode = ProductCode(value: Positive)

  const NotPositiveMessage: string := "Product code must be a positive integer"
  const NotNumericMessage: string := "Product code must be numeric"

  /** `new ProductCode($v)` and `fromInt($v)`: only positive values are accepted. */
  function FromInt(v: int): (r: Result<ProductCode>)
    ensures r.Success? <==> v > 0
    ensures r.Success? ==> r.value.value == v
    ensures r.Failure? ==> r.error == InvalidArgument(NotPositiveMessage)
  {
    if v <= 0 then Failure(InvalidArgument(NotPositiveMessage)) else Success(ProductCode(v))
  }

  /** `fromString($s)`: a non-numeric string is refused; a numeric one is cast to int
      and then meets the positivity check. */
  function FromString(s: string): (r: Result<ProductCode>)
    ensures !IsNumeric(s) ==> r == Failure(InvalidArgument(NotNumericMessage))
    ensures IsNumeric(s) ==> (r.Success? <==> IntCast(s) > 0)
    ensures r.Success? ==> r.value.value == IntCast(s)
  {
    if !IsNumeric(s) then Failure(InvalidArgument(NotNumericMessage)) else FromInt(IntCast(s))
  }

  /** `equals`: value equality. */
  predicate Equals(a: ProductCode, b: ProductCode) {
    a.value == b.value
  }

  /** `__toString`: the decimal rendering of the value. */
  function ToString(c: ProductCode): (s: string)
    ensures |s| >= 1 && AllDigits(s) && s[0] != '0'
    ensures ParseDigits(s) == c.value
  {
    NatToString(c.value)
  }

  /** Value equality coincides with equality of codes, so it is reflexive and symmetric. */
  lemma EqualsIsSameCode(a: ProductCode, b: ProductCode)
    ensures Equals(a, b) <==> a == b
    ensures Equals(a, a)
    ensures Equals(a, b) ==> Equals(b, a)
  {
  }

  /** Every code PHP can hold reads back from its rendering. */
  lemma FromStringOfToString(c: ProductCode)
    requires c.value <= PhpIntMax
    ensures FromString(ToString(c)) == Success(c)
  {
    var s := ToString(c);
    assert s == NatToString(c.value) == IntToString(c.value);
    NaturalRenderingIsNumeric(c.value);
    IntCastOfRendering(c.value);
    assert FromString(s) == FromInt(c.value);
  }
}
