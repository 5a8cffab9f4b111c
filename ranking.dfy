/** The sales reports `top_products_by_orders` and `top_products_by_views` of
    src/db/crud.py: a ranking of `(pid, count)` rows by count descending then pid
    ascending, cut to the top k with or without the rows tied at position k. */
module Ranking {
  import opened Models
  import opened Sorting

  datatype Ranked = Ranked(pid: int, count: int)

  /** Python's `rows[:k]`: a negative `k` drops `-k` rows from the end. */
  function PyTake<T>(rows: seq<T>, k: int): (r: seq<T>)
    ensures k >= 0 ==> |r| == if k < |rows| then k else |rows|
    ensures k < 0 ==> |r| == if |rows| + k > 0 then |rows| + k else 0
    ensures r == rows[..|r|]
  {
    if k >= 0 then (if k < |rows| then rows[..k] else rows)
    else if |rows| + k > 0 then rows[..|rows| + k]
    else []
  }

  /** `[r for r in rows if r[1] >= threshold]`. */
  function AtLeast(rows: seq<Ranked>, threshold: int): (r: seq<Ranked>)
    ensures forall x :: x in r <==> x in rows && x.count >= threshold
    ensures (forall i :: 0 <= i < |rows| ==> rows[i].count < threshold) ==> r == []
  {
    if rows == [] then []
    else (if rows[0].count >= threshold then [rows[0]] else []) + AtLeast(rows[1..], threshold)
  }

  /** The tie rule shared by both reports. */
  function TopK(rows: seq<Ranked>, k: int, includeTies: bool): seq<Ranked> {
    if rows == [] then []
    else if !includeTies then PyTake(rows, k)
    else if k < 1 then []
    else AtLeast(rows, rows[(if k < |rows| then k else |rows|) - 1].count)
  }

  /** `ORDER BY count DESC, pid`. */
  predicate RanksBefore(a: Ranked, b: Ranked) {
    a.count > b.count || (a.count == b.count && a.pid < b.pid)
  }

  predicate CountsDescending(rows: seq<Ranked>) {
    forall i, j :: 0 <= i < j < |rows| ==> rows[i].count >= rows[j].count
  }

  // ---------------------------------------------------------------------------
  // The two rankings
  // ---------------------------------------------------------------------------

  function LinePids(lines: seq<OrderLine>): (pids: seq<int>)
    ensures forall pid :: pid in pids <==> exists l :: l in lines && l.pid == pid
  {
    if lines == [] then []
    else
      assert forall l :: l in lines ==> l == lines[0] || l in lines[1..];
      [lines[0].pid] + LinePids(lines[1..])
  }

  /** The order numbers of the lines of one product, repeats included. */
  function OnosOf(lines: seq<OrderLine>, pid: int): (onos: seq<int>)
    ensures forall o :: o in onos <==> exists l :: l in lines && l.pid == pid && l.ono == o
  {
    if lines == [] then []
    else
      assert forall l :: l in lines ==> l == lines[0] || l in lines[1..];
      (if lines[0].pid == pid then [lines[0].ono] else []) + OnosOf(lines[1..], pid)
  }

  /** `SELECT pid, COUNT(DISTINCT ono) FROM orderlines GROUP BY pid ORDER BY order_count DESC, pid`. */
  function OrderCounts(lines: seq<OrderLine>): seq<Ranked> {
    var pids := SortedDistinct(LinePids(lines));
    SortBy(seq(|pids|, i requires 0 <= i < |pids| => Ranked(pids[i], |SortedDistinct(OnosOf(lines, pids[i]))|)), RanksBefore)
  }

  function ViewedPids(views: seq<ViewedProduct>): (pids: seq<int>)
    ensures forall pid :: pid in pids <==> exists v :: v in views && v.pid == pid
  {
    if views == [] then []
    else
      assert forall v :: v in views ==> v == views[0] || v in views[1..];
      [views[0].pid] + ViewedPids(views[1..])
  }

  function ViewsOf(views: seq<ViewedProduct>, pid: int): nat {
    if views == [] then 0 else (if views[0].pid == pid then 1 else 0) + ViewsOf(views[1..], pid)
  }

  /** `SELECT pid, COUNT(*) FROM viewedProduct GROUP BY pid ORDER BY view_count DESC, pid`. */
  function ViewCounts(views: seq<ViewedProduct>): seq<Ranked> {
    var pids := SortedDistinct(ViewedPids(views));
    SortBy(seq(|pids|, i requires 0 <= i < |pids| => Ranked(pids[i], ViewsOf(views, pids[i]))), RanksBefore)
  }

  // ---------------------------------------------------------------------------
  // Properties
  // ---------------------------------------------------------------------------

  /** No ranked rows, no report, whatever `k` and the tie flag. */
  lemma TopKOfNothing(k: int, includeTies: bool)
    ensures TopK([], k, includeTies) == []
  {
  }

  /** Without ties the report is the Python slice `rows[:k]`: the first k rows for k >= 0,
      all but the last -k rows for k < 0. */
  lemma TopKWithoutTies(rows: seq<Ranked>, k: int)
    ensures TopK(rows, k, false) == PyTake(rows, k)
    ensures k >= 0 ==> |TopK(rows, k, false)| == if k < |rows| then k else |rows|
    ensures k < 0 ==> |TopK(rows, k, false)| == if |rows| + k > 0 then |rows| + k else 0
  {
  }

  /** With ties, a `k` below 1 gives an empty report. */
  lemma TopKTiesSmallK(rows: seq<Ranked>, k: int)
    requires k < 1
    ensures TopK(rows, k, true) == []
  {
  }

  /** Over counts that never increase, the rows at or above a threshold are a prefix and
      every row after it is below the threshold. */
  predicate CutAt(rows: seq<Ranked>, r: seq<Ranked>, threshold: int) {
    && |r| <= |rows| && r == rows[..|r|]
    && (forall i :: 0 <= i < |r| ==> rows[i].count >= threshold)
    && (forall i :: |r| <= i < |rows| ==> rows[i].count < threshold)
  }

  lemma {:induction false} AtLeastIsPrefix(rows: seq<Ranked>, threshold: int)
    requires CountsDescending(rows)
    ensures CutAt(rows, AtLeast(rows, threshold), threshold)
  {
    if rows != [] {
      DescendingTail(rows);
      AtLeastIsPrefix(rows[1..], threshold);
      if rows[0].count >= threshold {
        ConsCut(rows, AtLeast(rows[1..], threshold), threshold);
      } else {
        assert forall i :: 0 <= i < |rows| ==> rows[i].count < threshold;
      }
    }
  }

  lemma DescendingTail(rows: seq<Ranked>)
    requires CountsDescending(rows) && rows != []
    ensures CountsDescending(rows[1..])
  {
    var tail := rows[1..];
    forall i, j | 0 <= i < j < |tail| ensures tail[i].count >= tail[j].count {
      assert tail[i] == rows[i + 1] && tail[j] == rows[j + 1];
    }
  }

  /** A cut of the tail, preceded by a head that reaches the threshold, is a cut of the whole. */
  lemma ConsCut(rows: seq<Ranked>, rest: seq<Ranked>, threshold: int)
    requires rows != [] && rows[0].count >= threshold
    requires CutAt(rows[1..], rest, threshold)
    ensures CutAt(rows, [rows[0]] + rest, threshold)
  {
    var r := [rows[0]] + rest;
    assert r == rows[..|r|] by {
      assert rows == [rows[0]] + rows[1..];
    }
    forall i | 0 <= i < |r| ensures rows[i].count >= threshold {
      if i > 0 {
        assert rows[i] == rows[1..][i - 1];
      }
    }
    forall i | |r| <= i < |rows| ensures rows[i].count < threshold {
      assert rows[i] == rows[1..][i - 1];
    }
  }

  /** With ties and k >= 1 the report is the prefix of the ranking whose counts reach the
      count at position min(k, n): it holds at least min(k, n) rows, and every row left
      out has a lower count. */
  lemma TopKWithTies(rows: seq<Ranked>, k: int)
    requires CountsDescending(rows) && rows != [] && k >= 1
    ensures var m := if k < |rows| then k else |rows|;
            var r := TopK(rows, k, true);
            && CutAt(rows, r, rows[m - 1].count)
            && m <= |r|
  {
    var m := if k < |rows| then k else |rows|;
    AtLeastIsPrefix(rows, rows[m - 1].count);
    TiesFromCut(rows, k, AtLeast(rows, rows[m - 1].count));
  }

  /** The tie rule's report, given that the rows reaching the count of row min(k, n) are a
      prefix. */
  lemma TiesFromCut(rows: seq<Ranked>, k: int, r: seq<Ranked>)
    requires rows != [] && k >= 1
    requires var m := if k < |rows| then k else |rows|;
             r == AtLeast(rows, rows[m - 1].count) && CutAt(rows, r, rows[m - 1].count)
    ensures var m := if k < |rows| then k else |rows|;
            && CutAt(rows, TopK(rows, k, true), rows[m - 1].count)
            && m <= |TopK(rows, k, true)|
  {
    var m := if k < |rows| then k else |rows|;
    CutCovers(rows, r, rows[m - 1].count, m - 1);
  }

  /** A row that reaches the threshold lies inside the cut. */
  lemma CutCovers(rows: seq<Ranked>, r: seq<Ranked>, threshold: int, i: int)
    requires CutAt(rows, r, threshold)
    requires 0 <= i < |rows| && rows[i].count >= threshold
    ensures i < |r|
  {
  }

  /** Every reported row is a row of the ranking. */
  lemma TopKWithin(rows: seq<Ranked>, k: int, includeTies: bool)
    ensures forall x :: x in TopK(rows, k, includeTies) ==> x in rows
  {
    if rows != [] && !includeTies {
      var r := PyTake(rows, k);
      forall x | x in r ensures x in rows {
        var i :| 0 <= i < |r| && r[i] == x;
        assert rows[i] == x;
      }
    }
  }

  /** What either report promises over a ranking whose counts never increase: without ties
      it is the Python slice; with ties and k >= 1 it is the prefix cut at the count of row
      min(k, n), at least min(k, n) rows long; and it only holds rows of the ranking. */
  predicate IsReport(ranking: seq<Ranked>, k: int, includeTies: bool, rows: seq<Ranked>) {
    && (!includeTies ==> rows == PyTake(ranking, k))
    && (includeTies && k >= 1 && ranking != [] ==>
          var m := if k < |ranking| then k else |ranking|;
          CutAt(ranking, rows, ranking[m - 1].count) && m <= |rows|)
    && (forall x :: x in rows ==> x in ranking)
  }

  lemma TopKIsReport(ranking: seq<Ranked>, k: int, includeTies: bool)
    requires CountsDescending(ranking)
    ensures IsReport(ranking, k, includeTies, TopK(ranking, k, includeTies))
  {
    TopKWithin(ranking, k, includeTies);
    if includeTies && k >= 1 && ranking != [] {
      TopKWithTies(ranking, k);
    }
  }

  /** With ties the report extends the one without ties. */
  lemma TiesExtendTopK(rows: seq<Ranked>, k: int)
    requires CountsDescending(rows) && rows != [] && k >= 1
    ensures |TopK(rows, k, false)| <= |TopK(rows, k, true)|
    ensures TopK(rows, k, true)[..|TopK(rows, k, false)|] == TopK(rows, k, false)
  {
    TopKWithTies(rows, k);
  }

  /** The ranking order is a strict ordering, and a list sorted by it has descending counts. */
  lemma RanksBeforeIsStrict()
    ensures StrictOrder(RanksBefore)
  {
  }

  lemma SortedRankingDescends(rows: seq<Ranked>)
    requires SortedBy(rows, RanksBefore)
    ensures CountsDescending(rows)
  {
    forall i, j | 0 <= i < j < |rows| ensures rows[i].count >= rows[j].count {
      assert !RanksBefore(rows[j], rows[i]);
    }
  }

  /** `top_products_by_orders` reads a ranking sorted by count then pid, so the tie rule's
      prefix reading applies; its rows are one per ordered product. */
  lemma OrderCountsRanked(lines: seq<OrderLine>)
    ensures SortedBy(OrderCounts(lines), RanksBefore)
    ensures CountsDescending(OrderCounts(lines))
    ensures forall r :: r in OrderCounts(lines) ==> exists l :: l in lines && l.pid == r.pid
  {
    var pids := SortedDistinct(LinePids(lines));
    var raw := seq(|pids|, i requires 0 <= i < |pids| => Ranked(pids[i], |SortedDistinct(OnosOf(lines, pids[i]))|));
    SortBySorted(raw, RanksBefore);
    SortedRankingDescends(OrderCounts(lines));
    forall r | r in OrderCounts(lines) ensures exists l :: l in lines && l.pid == r.pid {
      assert r in multiset(raw);
      var i :| 0 <= i < |raw| && raw[i] == r;
      assert pids[i] in pids;
    }
  }

  /** Likewise for `top_products_by_views`. */
  lemma ViewCountsRanked(views: seq<ViewedProduct>)
    ensures SortedBy(ViewCounts(views), RanksBefore)
    ensures CountsDescending(ViewCounts(views))
    ensures forall r :: r in ViewCounts(views) ==> r.count == ViewsOf(views, r.pid) && r.count > 0
  {
    var pids := SortedDistinct(ViewedPids(views));
    var raw := seq(|pids|, i requires 0 <= i < |pids| => Ranked(pids[i], ViewsOf(views, pids[i])));
    SortBySorted(raw, RanksBefore);
    SortedRankingDescends(ViewCounts(views));
    forall r | r in ViewCounts(views) ensures r.count == ViewsOf(views, r.pid) && r.count > 0 {
      assert r in multiset(raw);
      var i :| 0 <= i < |raw| && raw[i] == r;
      assert pids[i] in pids;
      var v :| v in views && v.pid == r.pid;
      ViewedProductCounted(views, v);
    }
  }

  lemma {:induction false} ViewedProductCounted(views: seq<ViewedProduct>, v: ViewedProduct)
    requires v in views
    ensures ViewsOf(views, v.pid) > 0
  {
    if views[0] != v {
      ViewedProductCounted(views[1..], v);
    }
  }
}
