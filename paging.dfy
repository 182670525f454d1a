/** Offset/limit pagination shared by the three list endpoints: page `p` of size `n`
    starts at row `(p - 1) * n` and holds at most `n` rows, and the number of pages is
    `(total + n - 1) // n`. */
module Paging {
  import opened Common
  import opened Ordering

  const DefaultPage := 1
  const DefaultPageSize := 10
  const MaxPageSize := 100

  /** The `page` and `page_size` query bounds: `page >= 1`, `1 <= page_size <= 100`. */
  function PagingViolations(page: int, pageSize: int): (r: seq<Violation>)
    ensures r == [] <==> page >= 1 && 1 <= pageSize <= MaxPageSize
  {
    (if page < 1 then [Violation("page", "greater_than_equal")] else [])
    + (if pageSize < 1 then [Violation("page_size", "greater_than_equal")]
       else if pageSize > MaxPageSize then [Violation("page_size", "less_than_equal")]
       else [])
  }

  function Offset(page: int, pageSize: int): int {
    (page - 1) * pageSize
  }

  /** `OFFSET (page - 1) * page_size LIMIT page_size` over rows already in order. */
  function Slice<T>(xs: seq<T>, page: int, pageSize: int): (r: seq<T>)
    requires page >= 1 && pageSize >= 1
    ensures |r| <= pageSize
    ensures Offset(page, pageSize) >= |xs| ==> r == []
    ensures Offset(page, pageSize) < |xs| ==>
      |r| == (if |xs| - Offset(page, pageSize) < pageSize then |xs| - Offset(page, pageSize) else pageSize)
    ensures forall k :: 0 <= k < |r| ==> Offset(page, pageSize) + k < |xs| && r[k] == xs[Offset(page, pageSize) + k]
  {
    var o := (page - 1) * pageSize;
    assert o >= 0;
    if o >= |xs| then []
    else xs[o..if o + pageSize <= |xs| then o + pageSize else |xs|]
  }

  /** `(total + page_size - 1) // page_size`; Python's floor division and Dafny's agree
      here because both operands are non-negative. */
  function TotalPages(total: nat, pageSize: int): nat
    requires pageSize >= 1
  {
    (total + pageSize - 1) / pageSize
  }

  lemma MulMonotone(a: int, b: int, n: int)
    requires n >= 1 && a * n < b * n
    ensures a < b
  {
  }

  /** A page of rows in descending order is itself in descending order. */
  lemma SliceKeepsOrder<T>(xs: seq<T>, key: T -> int, page: int, pageSize: int)
    requires page >= 1 && pageSize >= 1
    requires Descending(xs, key)
    ensures Descending(Slice(xs, page, pageSize), key)
  {
    var r := Slice(xs, page, pageSize);
    var o := Offset(page, pageSize);
    forall i, j | 0 <= i < j < |r| ensures key(r[i]) >= key(r[j]) {
      assert r[i] == xs[o + i] && r[j] == xs[o + j];
    }
  }

  /** The page count is the ceiling of `total / page_size`: enough pages for every row,
      no page left empty, and zero pages exactly when there are no rows. */
  lemma TotalPagesIsCeiling(total: nat, pageSize: int)
    requires pageSize >= 1
    ensures TotalPages(total, pageSize) * pageSize >= total
    ensures total > 0 ==> (TotalPages(total, pageSize) - 1) * pageSize < total
    ensures TotalPages(total, pageSize) == 0 <==> total == 0
  {
    var n := TotalPages(total, pageSize);
    var m := total + pageSize - 1;
    assert m == n * pageSize + m % pageSize;
    assert 0 <= m % pageSize < pageSize;
    assert (n - 1) * pageSize == n * pageSize - pageSize;
    if n == 0 {
      assert total < pageSize;
      assert m < pageSize;
    }
  }

  /** A page has rows exactly when its number is at most the page count. */
  lemma PageNonEmptyIff<T>(xs: seq<T>, page: int, pageSize: int)
    requires page >= 1 && pageSize >= 1
    ensures Slice(xs, page, pageSize) != [] <==> page <= TotalPages(|xs|, pageSize)
  {
    var n := TotalPages(|xs|, pageSize);
    TotalPagesIsCeiling(|xs|, pageSize);
    if Offset(page, pageSize) < |xs| {
      assert (page - 1) * pageSize < n * pageSize;
      MulMonotone(page - 1, n, pageSize);
    } else if |xs| > 0 {
      assert (n - 1) * pageSize < (page - 1) * pageSize;
      MulMonotone(n - 1, page - 1, pageSize);
    }
  }

  /** Every row appears on page `i / page_size + 1`, at position `i % page_size`: the
      pages together cover the whole ordered result. */
  lemma RowOnItsPage<T>(xs: seq<T>, i: int, pageSize: int)
    requires 0 <= i < |xs| && pageSize >= 1
    ensures var page := i / pageSize + 1;
      && page >= 1
      && i % pageSize < |Slice(xs, page, pageSize)|
      && Slice(xs, page, pageSize)[i % pageSize] == xs[i]
      && xs[i] in Slice(xs, page, pageSize)
  {
    var page := i / pageSize + 1;
    assert Offset(page, pageSize) == i - i % pageSize;
  }

  /** Every row is on some page. */
  lemma EveryRowOnSomePage<T>(xs: seq<T>, x: T, pageSize: int)
    requires x in xs && pageSize >= 1
    ensures exists page :: (page >= 1 && x in Slice(xs, page, pageSize))
  {
    var i :| 0 <= i < |xs| && xs[i] == x;
    RowOnItsPage(xs, i, pageSize);
  }

  /** The worked example: 15 matching rows, page 2 of size 10, gives the last 5 rows and
      2 pages. */
  lemma FifteenRowsExample<T>(xs: seq<T>)
    requires |xs| == 15
    ensures Slice(xs, 2, 10) == xs[10..]
    ensures |Slice(xs, 2, 10)| == 5
    ensures TotalPages(|xs|, 10) == 2
  {
  }
}
