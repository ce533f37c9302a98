/**
 The response shape of a product (src/Application/DTO/ProductDTO.php): the entity
 flattened to its code, status string, import date and the twenty attributes, and the
 array the controllers return.
 */
module ProductDTOs {
  import opened Core
  import opened ProductCodes
  import opened ProductStatuses
  import opened Products

  datatype ProductDTO = ProductDTO(code: int, status: string, importedT: Timestamp, attrs: Attributes)

  /** `ProductDTO::fromEntity($product)`: the code's value, the status's string and every
      attribute, copied. */
  function FromEntity(p: Product): (dto: ProductDTO)
    ensures dto.code == p.code.value && dto.code > 0
    ensures dto.status == Value(p.status) && dto.status in ValidStatuses
    ensures dto.importedT == p.importedDate
    ensures forall a :: At(dto.attrs, a) == At(p.attrs, a)
  {
    ProductDTO(p.code.value, Value(p.status), p.importedDate, p.attrs)
  }

  /** `toArray()`: code, status and import date first, then the attributes in
      constructor order. */
  function ToArray(dto: ProductDTO): (r: seq<(string, Json)>)
    ensures |r| == 3 + |AttrOrder|
    ensures r[..3] == Heading(dto.code, dto.status, dto.importedT)
    ensures forall i :: 0 <= i < |AttrOrder| ==> r[3 + i] == (Key(AttrOrder[i]), At(dto.attrs, AttrOrder[i]))
  {
    var h := Heading(dto.code, dto.status, dto.importedT);
    var t := AttrEntries(dto.attrs, AttrOrder);
    assert (h + t)[..3] == h;
    h + t
  }

  // ----- properties -----

  /** The array of a product's DTO is the product's own array. */
  lemma {:induction false} ArrayOfEntity(p: Product)
    ensures ToArray(FromEntity(p)) == Products.ToArray(p)
  {
    var r := ToArray(FromEntity(p));
    var q := Products.ToArray(p);
    assert r[..3] == q[..3];
    forall i | 0 <= i < |r|
      ensures r[i] == q[i]
    {
      if i < 3 {
        assert r[i] == r[..3][i] && q[i] == q[..3][i];
      } else {
        assert r[3 + (i - 3)] == q[3 + (i - 3)];
      }
    }
  }

  /** A DTO determines its product: the copy loses nothing. */
  lemma FromEntityInjective(p: Product, q: Product)
    requires FromEntity(p) == FromEntity(q)
    ensures p == q
  {
    FromStringOfValue(p.status);
    FromStringOfValue(q.status);
    assert p.attrs == q.attrs by {
      forall a | a in AllAttrs
        ensures p.attrs[a] == q.attrs[a]
      {
        assert At(p.attrs, a) == At(FromEntity(p).attrs, a);
      }
    }
  }
}
