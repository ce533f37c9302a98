/**
 The products table behind src/Infrastructure/Repository/SQLiteProductRepository.php, as
 a finite map from code to product. The map key is the table's primary key, so every
 stored product sits under its own code. Binding a product to a row and hydrating it
 back is taken to be lossless: the store holds the entity itself.
 */
module ProductRepository {
  import opened Core
  import opened ProductCodes
  import opened ProductStatuses
  import opened Products
  import opened Ordering

  type ProductStore = s: map<int, Product> | forall k :: k in s ==> s[k].code.value == k

  /** The PDO message of an insert that hits the `code` primary key. */
  const DuplicateCodeMessage: string :=
    "SQLSTATE[23000]: Integrity constraint violation: 19 UNIQUE constraint failed: products.code"

  /** `save($product)`: an INSERT, which the primary key refuses for a stored code. */
  function Save(s: ProductStore, p: Product): (r: Result<ProductStore>)
    ensures r.Failure? <==> p.code.value in s
    ensures r.Failure? ==> r.error == Database(DuplicateCodeMessage)
    ensures r.Success? ==> r.value.Keys == s.Keys + {p.code.value}
    ensures r.Success? ==> r.value[p.code.value] == p
    ensures r.Success? ==> forall k :: k in s ==> r.value[k] == s[k]
  {
    if p.code.value in s then Failure(Database(DuplicateCodeMessage))
    else Success(s[p.code.value := p])
  }

  /** `update($product)`: every column of the row with the product's code is rewritten,
      status and import date included; with no such row nothing happens. */
  function Update(s: ProductStore, p: Product): (r: ProductStore)
    ensures r.Keys == s.Keys
    ensures p.code.value in s ==> r[p.code.value] == p
    ensures forall k :: k in s && k != p.code.value ==> r[k] == s[k]
    ensures p.code.value !in s ==> r == s
  {
    if p.code.value in s then s[p.code.value := p] else s
  }

  /** `findByCode($code)`. */
  function FindByCode(s: ProductStore, c: ProductCode): (r: Option<Product>)
    ensures r.None? <==> c.value !in s
    ensures r.Some? ==> r.value == s[c.value] && r.value.code == c
  {
    if c.value in s then Some(s[c.value]) else None
  }

  /** `exists($code)`. */
  predicate Exists(s: ProductStore, c: ProductCode): (b: bool)
    ensures b <==> FindByCode(s, c).Some?
  {
    c.value in s
  }

  /** `delete($code)`: a soft delete that sets the status to trash and nothing else. */
  function Delete(s: ProductStore, c: ProductCode): (r: ProductStore)
    ensures r.Keys == s.Keys
    ensures c.value in s ==> r[c.value] == MoveToTrash(s[c.value])
    ensures forall k :: k in s && k != c.value ==> r[k] == s[k]
  {
    if c.value in s then s[c.value := MoveToTrash(s[c.value])] else s
  }

  /** `count()`: every row, trashed ones included. */
  function Count(s: ProductStore): (n: nat)
    ensures n == |s.Keys|
  {
    |s|
  }

  function CodeScore(k: int): int { k }

  /** The number of rows a page skips, before SQLite reads a negative one as 0. */
  function Offset(page: int, limit: int): int {
    (page - 1) * limit
  }

  /** Pages count from 1, so their offset is never negative, and each page starts
      `limit` rows after the one before it. */
  lemma OffsetOfPage(page: int, limit: int)
    requires page >= 1 && limit >= 0
    ensures Offset(page, limit) >= 0
    ensures Offset(1, limit) == 0 && Offset(page + 1, limit) == Offset(page, limit) + limit
  {
  }

  /** The stored codes, highest first. */
  function DescendingCodes(s: ProductStore): (codes: seq<int>)
    ensures |codes| == |s.Keys|
    ensures forall k :: k in codes <==> k in s
    ensures forall i, j :: 0 <= i < j < |codes| ==> codes[i] > codes[j]
  {
    var r := Ranked(s.Keys, CodeScore);
    assert forall i, j :: 0 <= i < j < |r| ==> Precedes(CodeScore, r[i], r[j]);
    r
  }

  /** The stored products under the given codes, in the same order. */
  function Rows(s: ProductStore, codes: seq<int>): (r: seq<Product>)
    requires forall i :: 0 <= i < |codes| ==> codes[i] in s
    ensures |r| == |codes|
    ensures forall i :: 0 <= i < |r| ==> r[i] == s[codes[i]] && r[i].code.value == codes[i]
  {
    seq(|codes|, i requires 0 <= i < |codes| => s[codes[i]])
  }

  /** `findAll($page, $limit)`: rows by descending code, skipping `(page-1)*limit` of
      them and returning at most `limit`. */
  function FindAll(s: ProductStore, page: int, limit: int): (r: seq<Product>)
    ensures |r| == WindowLength(|s.Keys|, Offset(page, limit), limit)
    ensures limit >= 0 ==> |r| <= limit
    ensures forall i :: 0 <= i < |r| ==> r[i].code.value in s && s[r[i].code.value] == r[i]
    ensures forall i, j :: 0 <= i < j < |r| ==> r[i].code.value > r[j].code.value
  {
    var all := DescendingCodes(s);
    var offset := Offset(page, limit);
    WindowOfDescending(all, offset, limit);
    var codes := Window(all, offset, limit);
    Rows(s, codes)
  }

  // ----- properties -----

  /** Index `i` of a page holds the product at position `Offset(page, limit) + i` of the
      descending order, when that position exists. */
  lemma FindAllAt(s: ProductStore, page: int, limit: int, i: int)
    requires 0 <= Offset(page, limit) && 0 <= i < limit
    requires Offset(page, limit) + i < |s.Keys|
    ensures i < |FindAll(s, page, limit)|
    ensures FindAll(s, page, limit)[i] == s[Ranked(s.Keys, CodeScore)[Offset(page, limit) + i]]
  {
    var all := DescendingCodes(s);
    var offset := Offset(page, limit);
    WindowAt(all, offset, limit, i);
  }

  /** What `save` stores, `findByCode` returns. */
  lemma FindAfterSave(s: ProductStore, p: Product)
    requires p.code.value !in s
    ensures Save(s, p).Success?
    ensures FindByCode(Save(s, p).value, p.code) == Some(p)
  {
  }

  /** A soft-deleted product is still found, in the trash, and still counted. */
  lemma DeleteKeepsRow(s: ProductStore, c: ProductCode)
    requires Exists(s, c)
    ensures Exists(Delete(s, c), c)
    ensures FindByCode(Delete(s, c), c).value.status == Trash
    ensures Count(Delete(s, c)) == Count(s)
  {
  }

  /** For products, being listed ahead means having a higher code. */
  lemma AheadIsAbove(keys: set<int>, code: int, o: int)
    ensures o in Ahead(keys, CodeScore, code) <==> o in keys && o > code
  {
  }

  /** The page starts where it should: the product at position `i` of page `page` has
      exactly `(page-1)*limit + i` stored products ahead of it, that is, with a higher
      code (`AheadIsAbove`); a negative offset reads as 0. */
  lemma {:induction false} PagePosition(s: ProductStore, page: int, limit: int, i: int)
    requires 0 <= i < WindowLength(|s.Keys|, Offset(page, limit), limit)
    ensures i < |FindAll(s, page, limit)|
    ensures var offset := if Offset(page, limit) < 0 then 0 else Offset(page, limit);
      |Ahead(s.Keys, CodeScore, FindAll(s, page, limit)[i].code.value)| == offset + i
  {
    var codes := Window(DescendingCodes(s), Offset(page, limit), limit);
    assert FindAll(s, page, limit)[i].code.value == codes[i];
    WindowPosition(s.Keys, CodeScore, Offset(page, limit), limit, i);
  }
}
