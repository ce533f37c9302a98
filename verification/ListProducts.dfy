/**
 The listing use case (src/Application/UseCase/ListProducts.php): one page of products
 as DTOs, with the pagination block.
 */
module ListProducts {
  import opened Core
  import opened Products
  import opened ProductDTOs
  import opened PaginationDTOs
  import opened Ordering
  import PR = ProductRepository

  datatype Listing = Listing(products: seq<ProductDTO>, pagination: Pagination)

  /** `array_map` of `fromEntity` over a page. */
  function Dtos(ps: seq<Product>): (r: seq<ProductDTO>)
    ensures |r| == |ps|
    ensures forall i :: 0 <= i < |ps| ==> r[i] == FromEntity(ps[i])
  {
    seq(|ps|, i requires 0 <= i < |ps| => FromEntity(ps[i]))
  }

  /** `execute($page, $limit)`: the DTOs of the page `findAll` reads, highest code
      first and at most `limit` of them, and the pagination over the stored count. */
  function Execute(s: PR.ProductStore, page: int, limit: int): (r: Listing)
    ensures limit >= 0 ==> |r.products| <= limit
    ensures forall i :: 0 <= i < |r.products| ==>
      r.products[i].code in s && r.products[i] == FromEntity(s[r.products[i].code])
    ensures forall i, j :: 0 <= i < j < |r.products| ==> r.products[i].code > r.products[j].code
    ensures r.pagination == New(page, limit, |s.Keys|)
  {
    Listing(Dtos(PR.FindAll(s, page, limit)), New(page, limit, PR.Count(s)))
  }

  // ----- properties -----

  /** The offset of a page counted by the pagination lies inside the catalog, and the
      offset of any later page does not. */
  lemma OffsetWithinTotal(page: int, limit: int, total: nat)
    requires page >= 1 && limit >= 1
    ensures 0 <= PR.Offset(page, limit)
    ensures PR.Offset(page, limit) < total <==> page <= New(page, limit, total).totalPages
  {
    var tp := New(page, limit, total).totalPages;
    MultiplyMonotonic(0, page - 1, limit);
    if page <= tp {
      MultiplyMonotonic(page - 1, tp - 1, limit);
    } else {
      MultiplyMonotonic(tp, page - 1, limit);
    }
  }

  /** Position `pos` of the ranking is index `pos % limit` of page `pos / limit + 1`. */
  lemma PageOfPosition(pos: nat, limit: int)
    requires limit >= 1
    ensures 0 <= PR.Offset(pos / limit + 1, limit) <= pos
    ensures PR.Offset(pos / limit + 1, limit) + pos % limit == pos && pos % limit < limit
  {
    MultiplyMonotonic(0, pos / limit, limit);
  }

  /** ... and on no other page: index `i < limit` of page `page` is position
      `Offset(page, limit) + i`, whose page and index are `page` and `i`. */
  lemma PositionOfPage(pos: int, page: int, limit: int, i: int)
    requires page >= 1 && limit >= 1 && 0 <= i < limit
    requires pos == PR.Offset(page, limit) + i
    ensures pos / limit + 1 == page && pos % limit == i
  {
    DivisionUnique(pos, page - 1, limit, i);
  }

  /** With the controller's page and limit (both at least 1), a page has products
      exactly when it is one of the pages the pagination counts. */
  lemma PageIsFilledIffCounted(s: PR.ProductStore, page: int, limit: int)
    requires page >= 1 && limit >= 1
    ensures var r := Execute(s, page, limit);
      |r.products| > 0 <==> page <= r.pagination.totalPages
  {
    OffsetWithinTotal(page, limit, |s.Keys|);
    var w := Window(PR.DescendingCodes(s), PR.Offset(page, limit), limit);
    assert |Execute(s, page, limit).products| == |w|;
  }

  /** The repository-level half of `EveryProductIsListed`: the product with `pos`
      codes above its own is at index `slot` of page `page` when
      `(page - 1) * limit + slot == pos`. */
  lemma FoundOnItsPage(s: PR.ProductStore, limit: int, k: int, page: int, slot: int)
    requires limit >= 1 && k in s && page >= 1 && 0 <= slot < limit
    requires PR.Offset(page, limit) + slot == |Ahead(s.Keys, PR.CodeScore, k)|
    ensures slot < |PR.FindAll(s, page, limit)| && PR.FindAll(s, page, limit)[slot] == s[k]
  {
    RankOfMember(s.Keys, PR.CodeScore, k);
    PR.OffsetOfPage(page, limit);
    PR.FindAllAt(s, page, limit, slot);
  }

  /** Paging covers the catalog: every stored product is on page `pos / limit + 1` at
      index `pos % limit`, where `pos` counts the stored codes above its own. */
  lemma EveryProductIsListed(s: PR.ProductStore, limit: int, k: int)
    requires limit >= 1 && k in s
    ensures var pos := |Ahead(s.Keys, PR.CodeScore, k)|;
      var r := Execute(s, pos / limit + 1, limit);
      pos % limit < |r.products| && r.products[pos % limit] == FromEntity(s[k])
  {
    var pos := |Ahead(s.Keys, PR.CodeScore, k)|;
    PageOfPosition(pos, limit);
    FoundOnItsPage(s, limit, k, pos / limit + 1, pos % limit);
  }

  /** The rank of the product at index `i` of a page, when the catalog reaches that
      far: `(page - 1) * limit + i`. */
  lemma ListedAt(s: PR.ProductStore, page: int, limit: int, i: int)
    requires page >= 1 && limit >= 1 && 0 <= i < limit && PR.Offset(page, limit) + i < |s.Keys|
    ensures i < |Execute(s, page, limit).products|
    ensures |Ahead(s.Keys, PR.CodeScore, Execute(s, page, limit).products[i].code)| == PR.Offset(page, limit) + i
  {
    MultiplyMonotonic(0, page - 1, limit);
    PR.PagePosition(s, page, limit, i);
  }

  /** ... and nowhere else: a product listed at index `i` of page `page` is the one
      `EveryProductIsListed` puts there. */
  lemma ListedOnce(s: PR.ProductStore, page: int, limit: int, i: int)
    requires page >= 1 && limit >= 1 && 0 <= i < limit && PR.Offset(page, limit) + i < |s.Keys|
    ensures i < |Execute(s, page, limit).products|
    ensures var pos := |Ahead(s.Keys, PR.CodeScore, Execute(s, page, limit).products[i].code)|;
      page == pos / limit + 1 && i == pos % limit
  {
    ListedAt(s, page, limit, i);
    PositionOfPage(|Ahead(s.Keys, PR.CodeScore, Execute(s, page, limit).products[i].code)|, page, limit, i);
  }
}
