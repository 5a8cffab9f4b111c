/** SQLite's `LIMIT ? OFFSET ?` and the page arithmetic of the listing queries. */
module Paging {
  import opened Sorting

  /** Where SQLite starts reading for an `OFFSET`: a negative offset counts as zero, and
      an offset past the end leaves nothing. */
  function PageStart(count: nat, offset: int): (start: nat)
    ensures start <= count
    ensures 0 <= offset <= count ==> start == offset
  {
    if offset < 0 then 0 else if offset > count then count else offset
  }

  /** SQLite `LIMIT limit OFFSET offset`: a negative limit means no limit. */
  function SqlPage<T>(rows: seq<T>, limit: int, offset: int): (page: seq<T>)
    ensures var rest := |rows| - PageStart(|rows|, offset);
            |page| == if 0 <= limit < rest then limit else rest
    ensures forall i :: 0 <= i < |page| ==> page[i] == rows[PageStart(|rows|, offset) + i]
  {
    var rest := rows[PageStart(|rows|, offset)..];
    if limit < 0 || limit >= |rest| then rest else rest[..limit]
  }

  /** `max(page - 1, 0) * page_size`. */
  function PageOffset(page: int, pageSize: int): int {
    (if page - 1 > 0 then page - 1 else 0) * pageSize
  }

  /** Two adjacent pages of the same size read on as one page of twice the size: paging
      neither skips nor repeats a row. */
  lemma AdjacentPages<T>(rows: seq<T>, size: nat, offset: nat)
    ensures SqlPage(rows, size, offset) + SqlPage(rows, size, offset + size) == SqlPage(rows, 2 * size, offset)
  {
    var a := SqlPage(rows, size, offset);
    var b := SqlPage(rows, size, offset + size);
    var c := SqlPage(rows, 2 * size, offset);
    assert |a| + |b| == |c|;
    forall i | 0 <= i < |c| ensures (a + b)[i] == c[i] {
      if i >= |a| {
        assert |a| == size;
      }
    }
  }

  /** A page of rows is a piece of them: it holds only their rows and keeps their order. */
  lemma PageKeepsOrder<T>(rows: seq<T>, limit: int, offset: int, before: (T, T) -> bool)
    requires SortedBy(rows, before)
    ensures SortedBy(SqlPage(rows, limit, offset), before)
    ensures forall x :: x in SqlPage(rows, limit, offset) ==> x in rows
  {
    var page := SqlPage(rows, limit, offset);
    var start := PageStart(|rows|, offset);
    forall i, j | 0 <= i < j < |page| ensures !before(page[j], page[i]) {
      assert page[i] == rows[start + i] && page[j] == rows[start + j];
    }
    forall x | x in page ensures x in rows {
      var i :| 0 <= i < |page| && page[i] == x;
      assert rows[start + i] == x;
    }
  }

  /** Pages 1 and 2 of `page_size` rows read on as the first `2 * page_size` rows. */
  lemma FirstTwoPages<T>(rows: seq<T>, pageSize: nat)
    ensures SqlPage(rows, pageSize, PageOffset(1, pageSize)) + SqlPage(rows, pageSize, PageOffset(2, pageSize)) ==
            SqlPage(rows, 2 * pageSize, 0)
  {
    assert PageOffset(1, pageSize) == 0 && PageOffset(2, pageSize) == pageSize;
    AdjacentPages(rows, pageSize, 0);
  }
}
