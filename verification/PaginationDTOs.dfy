/**
 The pagination block of a listing (src/Application/DTO/PaginationDTO.php): page,
 limit, total and the number of pages.
 */
module PaginationDTOs {
  import opened Core

  datatype Pagination = Pagination(page: int, limit: int, total: int, totalPages: int)

  /** `ceil($total / $limit)` for a positive limit, on exact integers. */
  function CeilDiv(total: int, limit: int): (q: int)
    requires limit > 0
    ensures (q - 1) * limit < total <= q * limit
  {
    if total % limit == 0 then total / limit else total / limit + 1
  }

  /** `new PaginationDTO($page, $limit, $total)`: the page is raised to at least 1, and
      the page count is the least number of `limit`-sized pages holding `total` items
      (0 when the limit is not positive). */
  function New(page: int, limit: int, total: int): (p: Pagination)
    ensures p.page == (if page < 1 then 1 else page) && p.limit == limit && p.total == total
    ensures limit > 0 ==> (p.totalPages - 1) * limit < total <= p.totalPages * limit
    ensures limit <= 0 ==> p.totalPages == 0
  {
    Pagination(if page < 1 then 1 else page, limit, total, if limit > 0 then CeilDiv(total, limit) else 0)
  }

  /** `toArray()`. */
  function ToArray(p: Pagination): (r: seq<(string, Json)>)
    ensures KeysOf(r) == ["page", "limit", "total", "total_pages"]
    ensures forall i :: 0 <= i < |r| ==> r[i].1.JInt?
  {
    [("page", JInt(p.page)), ("limit", JInt(p.limit)), ("total", JInt(p.total)),
     ("total_pages", JInt(p.totalPages))]
  }

  // ----- properties -----

  /** The ceiling bounds pin the page count down: no other count satisfies them. */
  lemma PageCountIsUnique(page: int, limit: int, total: int, n: int)
    requires limit > 0 && (n - 1) * limit < total <= n * limit
    ensures n == New(page, limit, total).totalPages
  {
    var m := New(page, limit, total).totalPages;
    if n < m {
      assert n * limit <= (m - 1) * limit by { MultiplyMonotonic(n, m - 1, limit); }
      assert false;
    } else if m < n {
      assert m * limit <= (n - 1) * limit by { MultiplyMonotonic(m, n - 1, limit); }
      assert false;
    }
  }

  lemma MultiplyMonotonic(a: int, b: int, c: int)
    requires a <= b && c >= 0
    ensures a * c <= b * c
  {
  }

  /** Euclidean division is unique: `q * d + i` with `0 <= i < d` has quotient `q` and
      remainder `i`. */
  lemma DivisionUnique(n: int, q: int, d: int, i: int)
    requires d >= 1 && 0 <= i < d && n == q * d + i
    ensures n / d == q && n % d == i
  {
    var q' := n / d;
    assert n == q' * d + n % d;
    if q' < q {
      assert (q' + 1) * d == q' * d + d;
      MultiplyMonotonic(q' + 1, q, d);
      assert false;
    } else if q < q' {
      assert (q + 1) * d == q * d + d;
      MultiplyMonotonic(q + 1, q', d);
      assert false;
    }
  }

  /** The array holds the four fields, so it determines the pagination. */
  lemma ToArrayInjective(p: Pagination, q: Pagination)
    requires ToArray(p) == ToArray(q)
    ensures p == q
  {
    assert ToArray(p)[0].1 == ToArray(q)[0].1;
    assert ToArray(p)[3].1 == ToArray(q)[3].1;
  }
}
