/** `PagingExtensions.GetPageCount`: how many pages of `pageSize` records it takes to hold
    `totalRecords` records, in a `long` and an `int` overload. */
module PagingExtensions {
  import opened DotNet
  import opened Bits

  /** The page count every answer is compared with: the ceiling of `total / pageSize`. */
  function CeilDiv(total: nat, pageSize: nat): nat
    requires pageSize > 0
  {
    (total + pageSize - 1) / pageSize
  }

  /** The `long` overload: `ArgumentException` for a page size that is not positive, 0 for
      no records, otherwise the smallest number of pages that holds every record. The
      increment cannot overflow, because a quotient with a remainder is at most half the
      total. */
  function GetPageCountLong(totalRecords: int64, pageSize: int32): (r: Result<int64>)
    ensures pageSize <= 0 ==> r == Failure(ArgumentException)
    ensures pageSize > 0 && totalRecords <= 0 ==> r == Success(0)
    ensures pageSize > 0 && totalRecords > 0 ==>
      && r.Success?
      && (r.value as int - 1) * pageSize as int < totalRecords as int <= r.value as int * pageSize as int
      && 0 < r.value <= totalRecords
  {
    if pageSize <= 0 then Failure(ArgumentException)
    else if totalRecords <= 0 then Success(0)
    else
      var pages := totalRecords as int / pageSize as int;
      CeilingBounds(totalRecords as int, pageSize as int);
      if totalRecords as int % pageSize as int == 0 then Success(pages as int64)
      else Success((pages + 1) as int64)
  }

  /** The `int` overload, the same computation on 32 bits. */
  function GetPageCountInt(totalRecords: int32, pageSize: int32): (r: Result<int32>)
    ensures pageSize <= 0 ==> r == Failure(ArgumentException)
    ensures pageSize > 0 && totalRecords <= 0 ==> r == Success(0)
    ensures pageSize > 0 && totalRecords > 0 ==>
      && r.Success?
      && (r.value as int - 1) * pageSize as int < totalRecords as int <= r.value as int * pageSize as int
      && 0 < r.value <= totalRecords
  {
    if pageSize <= 0 then Failure(ArgumentException)
    else if totalRecords <= 0 then Success(0)
    else
      var pages := totalRecords as int / pageSize as int;
      CeilingBounds(totalRecords as int, pageSize as int);
      if totalRecords as int % pageSize as int == 0 then Success(pages as int32)
      else Success((pages + 1) as int32)
  }

  /** What the two branches return: the quotient when the division is exact and the next
      number otherwise is the ceiling, it lies between `total / pageSize` and `total`, and
      every page but the last is full. */
  lemma CeilingBounds(total: int, pageSize: int)
    requires total > 0 && pageSize > 0
    ensures var c := if total % pageSize == 0 then total / pageSize else total / pageSize + 1;
      && (c - 1) * pageSize < total <= c * pageSize
      && 0 < c <= total
      && c == CeilDiv(total, pageSize)
  {
    var q, m := total / pageSize, total % pageSize;
    QuotientRemainder(total, pageSize);
    if m == 0 {
      ExactPages(total, pageSize, q);
      CeilDivIs(total, pageSize, q);
    } else {
      PartialLastPage(total, pageSize, q, m);
      CeilDivIs(total, pageSize, q + 1);
    }
  }

  /** Exact division: `q` full pages. */
  lemma ExactPages(total: int, pageSize: int, q: int)
    requires total > 0 && pageSize > 0 && q >= 0 && total == q * pageSize
    ensures (q - 1) * pageSize < total <= q * pageSize && 0 < q <= total
  {
    MulPred(q, pageSize);
    MulMonotone(1, pageSize, q);
  }

  /** A remainder `m`: `q` full pages and one more; the page size is then at least 2, so
      `q + 1` does not pass the total. */
  lemma PartialLastPage(total: int, pageSize: int, q: int, m: int)
    requires total > 0 && 0 < m < pageSize && q >= 0 && total == q * pageSize + m
    ensures q * pageSize < total <= (q + 1) * pageSize && 0 < q + 1 <= total
  {
    MulPred(q + 1, pageSize);
    MulMonotone(2, pageSize, q);
  }

  /** The ceiling is the one count whose pages hold the total with the last page not
      empty. */
  lemma CeilDivIs(total: nat, pageSize: nat, c: int)
    requires pageSize > 0 && (c - 1) * pageSize < total <= c * pageSize
    ensures c == CeilDiv(total, pageSize)
  {
    MulPred(c, pageSize);
    DivModUnique(total + pageSize - 1, pageSize, c, total + pageSize - 1 - c * pageSize);
  }

  /** Both overloads are the ceiling of the division for positive arguments. */
  lemma GetPageCountIsCeiling(totalRecords: int64, pageSize: int32)
    requires totalRecords > 0 && pageSize > 0
    ensures GetPageCountLong(totalRecords, pageSize) == Success(CeilDiv(totalRecords as nat, pageSize as nat) as int64)
    ensures -0x8000_0000 <= totalRecords < 0x8000_0000 ==>
      GetPageCountInt(totalRecords as int32, pageSize) == Success(CeilDiv(totalRecords as nat, pageSize as nat) as int32)
  {
    CeilingBounds(totalRecords as int, pageSize as int);
  }

  /** The `int` and the `long` overloads agree on `int` arguments. */
  lemma OverloadsAgree(totalRecords: int32, pageSize: int32)
    ensures GetPageCountInt(totalRecords, pageSize).Failure?
        <==> GetPageCountLong(totalRecords as int64, pageSize).Failure?
    ensures GetPageCountInt(totalRecords, pageSize).Failure? ==>
      GetPageCountInt(totalRecords, pageSize).error == GetPageCountLong(totalRecords as int64, pageSize).error
    ensures GetPageCountInt(totalRecords, pageSize).Success? ==>
      GetPageCountInt(totalRecords, pageSize).value as int == GetPageCountLong(totalRecords as int64, pageSize).value as int
  {
    if pageSize > 0 && totalRecords > 0 {
      CeilingBounds(totalRecords as int, pageSize as int);
    }
  }

  /** A page size of 0 or -5 is refused, no records make no pages, 100 records make 10 pages
      of 10 and 101 records 11. */
  lemma GetPageCountVectors()
    ensures GetPageCountLong(100, 0) == Failure(ArgumentException)
    ensures GetPageCountLong(100, -5) == Failure(ArgumentException)
    ensures GetPageCountLong(0, 5) == Success(0)
    ensures GetPageCountLong(100, 10) == Success(10)
    ensures GetPageCountLong(101, 10) == Success(11)
    ensures GetPageCountInt(101, 10) == Success(11)
  {
  }
}
