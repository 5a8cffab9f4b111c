/** The order readers of src/db/crud.py: `get_order_detail`, `compute_order_total` and
    `list_orders`, over the `orders` and `orderlines` tables. */
module Orders {
  import opened Wrappers
  import opened Models
  import opened Sorting
  import opened Paging

  /** `SELECT ... FROM orders WHERE ono = ?`. */
  function FindOrder(orders: seq<Order>, ono: int): (r: Option<Order>)
    ensures r.Some? ==> r.value in orders && r.value.ono == ono
    ensures r.None? ==> forall o :: o in orders ==> o.ono != ono
  {
    if orders == [] then None
    else if orders[0].ono == ono then Some(orders[0])
    else FindOrder(orders[1..], ono)
  }

  /** `ono` is the primary key of `orders`. */
  predicate UniqueOnos(orders: seq<Order>) {
    forall i, j :: 0 <= i < j < |orders| ==> orders[i].ono != orders[j].ono
  }

  /** Every order line belongs to an order. */
  predicate LinesHaveOrders(orders: seq<Order>, orderlines: seq<OrderLine>) {
    forall l :: l in orderlines ==> FindOrder(orders, l.ono).Some?
  }

  /** `WHERE ono = ?` on `orderlines`, in table order. */
  function LinesWithOno(orderlines: seq<OrderLine>, ono: int): (r: seq<OrderLine>)
    ensures forall l :: l in r <==> l in orderlines && l.ono == ono
    ensures (forall l :: l in orderlines ==> l.ono != ono) ==> r == []
  {
    if orderlines == [] then []
    else (if orderlines[0].ono == ono then [orderlines[0]] else []) + LinesWithOno(orderlines[1..], ono)
  }

  /** The lines of an order are numbered 1, 2, 3, ... in table order. */
  predicate DenseLines(orderlines: seq<OrderLine>, ono: int) {
    var lines := LinesWithOno(orderlines, ono);
    forall i :: 0 <= i < |lines| ==> lines[i].lineNo == i + 1
  }

  predicate EarlierLine(a: OrderLine, b: OrderLine) {
    a.lineNo < b.lineNo
  }

  /** `... WHERE ono = ? ORDER BY lineNo`. */
  function OrderLines(orderlines: seq<OrderLine>, ono: int): seq<OrderLine> {
    SortBy(LinesWithOno(orderlines, ono), EarlierLine)
  }

  /** `get_order_detail`: the order and its lines, or `(None, [])` for an unknown number. */
  function OrderDetail(orders: seq<Order>, orderlines: seq<OrderLine>, ono: int): (Option<Order>, seq<OrderLine>) {
    match FindOrder(orders, ono)
    case None => (None, [])
    case Some(o) => (Some(o), OrderLines(orderlines, ono))
  }

  /** What a line contributes to the total: quantity times unit price, in cents. */
  function LineAmount(l: OrderLine): int {
    l.qty * l.uprice
  }

  function SumAmounts(lines: seq<OrderLine>): int {
    if lines == [] then 0 else SumAmounts(lines[..|lines| - 1]) + LineAmount(lines[|lines| - 1])
  }

  /** `compute_order_total`: `COALESCE(SUM(qty * uprice), 0)` over the order's lines. */
  function OrderTotal(orderlines: seq<OrderLine>, ono: int): int {
    SumAmounts(LinesWithOno(orderlines, ono))
  }

  /** `WHERE cid = ?` on `orders`, in table order. */
  function CustomerOrders(orders: seq<Order>, cid: int): (r: seq<Order>)
    ensures forall o :: o in r <==> o in orders && o.cid == cid
  {
    if orders == [] then []
    else (if orders[0].cid == cid then [orders[0]] else []) + CustomerOrders(orders[1..], cid)
  }

  predicate NewerThan(a: Order, b: Order) {
    a.odate > b.odate
  }

  /** `list_orders`: one page of the customer's orders by date, newest first, and the
      customer's total number of orders. */
  function OrdersPage(orders: seq<Order>, cid: int, page: int, pageSize: int): (seq<Order>, int) {
    var mine := CustomerOrders(orders, cid);
    (SqlPage(SortBy(mine, NewerThan), pageSize, PageOffset(page, pageSize)), |mine|)
  }

  // ---------------------------------------------------------------------------
  // Properties
  // ---------------------------------------------------------------------------

  /** With unique order numbers, a lookup finds exactly the order that has the number. */
  lemma {:induction false} FindOrderOf(orders: seq<Order>, o: Order)
    requires UniqueOnos(orders) && o in orders
    ensures FindOrder(orders, o.ono) == Some(o)
  {
    if orders[0] != o {
      var j :| 0 <= j < |orders| && orders[j] == o;
      assert orders[0].ono != o.ono;
      assert UniqueOnos(orders[1..]) by {
        forall i, k | 0 <= i < k < |orders| - 1 ensures orders[1..][i].ono != orders[1..][k].ono {
          assert orders[1..][i] == orders[i + 1] && orders[1..][k] == orders[k + 1];
        }
      }
      assert o in orders[1..] by {
        assert orders[1..][j - 1] == o;
      }
      FindOrderOf(orders[1..], o);
    }
  }

  /** An unknown order number gives `(None, [])` and a total of 0. */
  lemma UnknownOrder(orders: seq<Order>, orderlines: seq<OrderLine>, ono: int)
    requires LinesHaveOrders(orders, orderlines)
    requires forall o :: o in orders ==> o.ono != ono
    ensures OrderDetail(orders, orderlines, ono) == (None, [])
    ensures OrderTotal(orderlines, ono) == 0
  {
    assert FindOrder(orders, ono).None?;
    forall l | l in orderlines ensures l.ono != ono {
      assert FindOrder(orders, l.ono).Some?;
    }
  }

  /** A known order comes back with exactly its own lines, in line-number order. */
  lemma KnownOrder(orders: seq<Order>, orderlines: seq<OrderLine>, o: Order)
    requires UniqueOnos(orders) && o in orders
    ensures var (found, lines) := OrderDetail(orders, orderlines, o.ono);
            && found == Some(o)
            && SortedBy(lines, EarlierLine)
            && multiset(lines) == multiset(LinesWithOno(orderlines, o.ono))
  {
    FindOrderOf(orders, o);
    SortBySorted(LinesWithOno(orderlines, o.ono), EarlierLine);
  }

  /** When an order's lines are numbered densely the sort changes nothing: line i is number i + 1. */
  lemma DenseOrderLines(orderlines: seq<OrderLine>, ono: int)
    requires DenseLines(orderlines, ono)
    ensures OrderLines(orderlines, ono) == LinesWithOno(orderlines, ono)
    ensures forall i :: 0 <= i < |OrderLines(orderlines, ono)| ==> OrderLines(orderlines, ono)[i].lineNo == i + 1
  {
    SortByOfSorted(LinesWithOno(orderlines, ono), EarlierLine);
  }

  lemma {:induction false} SumAmountsAppend(a: seq<OrderLine>, b: seq<OrderLine>)
    ensures SumAmounts(a + b) == SumAmounts(a) + SumAmounts(b)
  {
    if b != [] {
      assert (a + b)[..|a + b| - 1] == a + b[..|b| - 1];
      SumAmountsAppend(a, b[..|b| - 1]);
    } else {
      assert a + b == a;
    }
  }

  lemma {:induction false} LinesWithOnoAppend(a: seq<OrderLine>, b: seq<OrderLine>, ono: int)
    ensures LinesWithOno(a + b, ono) == LinesWithOno(a, ono) + LinesWithOno(b, ono)
  {
    if a != [] {
      assert (a + b)[1..] == a[1..] + b;
      LinesWithOnoAppend(a[1..], b, ono);
    } else {
      assert a + b == b;
    }
  }

  lemma {:induction false} LinesAllOfOno(lines: seq<OrderLine>, ono: int)
    requires forall l :: l in lines ==> l.ono == ono
    ensures LinesWithOno(lines, ono) == lines
  {
    if lines != [] {
      LinesAllOfOno(lines[1..], ono);
      assert [lines[0]] + lines[1..] == lines;
    }
  }

  /** The total of an order whose lines were all appended at once is the sum of those lines:
      qty times unit price, line by line. */
  lemma TotalOfAppendedOrder(orderlines: seq<OrderLine>, added: seq<OrderLine>, ono: int)
    requires forall l :: l in orderlines ==> l.ono != ono
    requires forall l :: l in added ==> l.ono == ono
    ensures OrderTotal(orderlines + added, ono) == SumAmounts(added)
  {
    LinesWithOnoAppend(orderlines, added, ono);
    LinesAllOfOno(added, ono);
    assert [] + added == added;
  }

  /** Ordering by date is a strict ordering. */
  lemma NewerThanIsStrict()
    ensures StrictOrder(NewerThan)
  {
  }

  /** A page of `list_orders` holds only the customer's orders, newest first, at most
      `page_size` of them; the count is the number of the customer's orders; and all the
      customer's orders are what is being paged, each once. */
  lemma OrdersPageShape(orders: seq<Order>, cid: int, page: int, pageSize: int)
    ensures var (rows, total) := OrdersPage(orders, cid, page, pageSize);
            && (forall o :: o in rows ==> o in orders && o.cid == cid)
            && (forall i, j :: 0 <= i < j < |rows| ==> rows[i].odate >= rows[j].odate)
            && (pageSize >= 0 ==> |rows| <= pageSize)
            && total == |CustomerOrders(orders, cid)|
            && multiset(SortBy(CustomerOrders(orders, cid), NewerThan)) == multiset(CustomerOrders(orders, cid))
  {
    var mine := CustomerOrders(orders, cid);
    var sorted := SortBy(mine, NewerThan);
    SortBySorted(mine, NewerThan);
    PageKeepsOrder(sorted, pageSize, PageOffset(page, pageSize), NewerThan);
    forall o | o in sorted ensures o in mine {
      assert o in multiset(sorted);
    }
  }

  // ---------------------------------------------------------------------------
  // Placing an order
  // ---------------------------------------------------------------------------

  /** What the two order tables keep: unique order numbers, no line without its order,
      and every order's lines numbered densely from 1. */
  predicate OrderTables(orders: seq<Order>, orderlines: seq<OrderLine>) {
    && UniqueOnos(orders)
    && LinesHaveOrders(orders, orderlines)
    && (forall o :: o in orders ==> DenseLines(orderlines, o.ono))
  }

  /** The lines a new order appends: all of that order, numbered 1, 2, 3, ... */
  predicate NumberedFromOne(ono: int, lines: seq<OrderLine>) {
    forall i :: 0 <= i < |lines| ==> lines[i].ono == ono && lines[i].lineNo == i + 1
  }

  lemma {:induction false} FindOrderAppend(orders: seq<Order>, o: Order, ono: int)
    ensures FindOrder(orders + [o], ono) ==
            if FindOrder(orders, ono).Some? then FindOrder(orders, ono)
            else if o.ono == ono then Some(o) else None
  {
    if orders == [] {
      assert orders + [o] == [o];
    } else {
      assert (orders + [o])[1..] == orders[1..] + [o];
      FindOrderAppend(orders[1..], o, ono);
    }
  }

  lemma AppendFreshKeepsUnique(orders: seq<Order>, o: Order)
    requires UniqueOnos(orders)
    requires forall x :: x in orders ==> x.ono != o.ono
    ensures UniqueOnos(orders + [o])
  {
    var orders' := orders + [o];
    forall i, j | 0 <= i < j < |orders'| ensures orders'[i].ono != orders'[j].ono {
      if j == |orders| {
        assert orders'[i] in orders;
      } else {
        assert orders'[i] == orders[i] && orders'[j] == orders[j];
      }
    }
  }

  lemma AppendKeepsLinesHaveOrders(orders: seq<Order>, orderlines: seq<OrderLine>, o: Order, added: seq<OrderLine>)
    requires LinesHaveOrders(orders, orderlines)
    requires NumberedFromOne(o.ono, added)
    ensures LinesHaveOrders(orders + [o], orderlines + added)
  {
    forall l | l in orderlines + added ensures FindOrder(orders + [o], l.ono).Some? {
      FindOrderAppend(orders, o, l.ono);
      if l !in orderlines {
        var i :| 0 <= i < |added| && added[i] == l;
      }
    }
  }

  /** Appending lines of one order leaves the lines of every other order as they were. */
  lemma AppendKeepsOtherLines(orderlines: seq<OrderLine>, ono: int, added: seq<OrderLine>, other: int)
    requires NumberedFromOne(ono, added)
    requires other != ono
    ensures LinesWithOno(orderlines + added, other) == LinesWithOno(orderlines, other)
  {
    LinesWithOnoAppend(orderlines, added, other);
    assert LinesWithOno(added, other) == [];
    assert LinesWithOno(orderlines, other) + [] == LinesWithOno(orderlines, other);
  }

  /** A fresh order's lines are exactly the appended ones. */
  lemma AppendFreshLines(orders: seq<Order>, orderlines: seq<OrderLine>, o: Order, added: seq<OrderLine>)
    requires LinesHaveOrders(orders, orderlines)
    requires forall x :: x in orders ==> x.ono != o.ono
    requires NumberedFromOne(o.ono, added)
    ensures LinesWithOno(orderlines + added, o.ono) == added
  {
    forall l | l in orderlines ensures l.ono != o.ono {
      assert FindOrder(orders, l.ono).Some?;
    }
    LinesWithOnoAppend(orderlines, added, o.ono);
    LinesAllOfOno(added, o.ono);
    assert [] + added == added;
  }

  /** `checkout` appends a header under a fresh number and then its lines numbered from 1:
      the tables keep their invariant, the new order reads back as itself with exactly the
      appended lines, and its total is their sum. */
  lemma PlaceOrderKeepsTables(orders: seq<Order>, orderlines: seq<OrderLine>, o: Order, added: seq<OrderLine>)
    requires OrderTables(orders, orderlines)
    requires forall x :: x in orders ==> x.ono != o.ono
    requires NumberedFromOne(o.ono, added)
    ensures OrderTables(orders + [o], orderlines + added)
    ensures OrderDetail(orders + [o], orderlines + added, o.ono) == (Some(o), added)
    ensures OrderTotal(orderlines + added, o.ono) == SumAmounts(added)
  {
    AppendFreshKeepsUnique(orders, o);
    AppendKeepsLinesHaveOrders(orders, orderlines, o, added);
    AppendFreshLines(orders, orderlines, o, added);
    forall x | x in orders + [o] ensures DenseLines(orderlines + added, x.ono) {
      if x.ono != o.ono {
        AppendKeepsOtherLines(orderlines, o.ono, added, x.ono);
      }
    }
    FindOrderAppend(orders, o, o.ono);
    SortByOfSorted(added, EarlierLine);
  }
}
