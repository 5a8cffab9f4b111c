/** The line loop of `checkout` in src/db/crud.py.

    For each (pid, summed quantity) of the customer's cart, in ascending pid order, the
    loop re-reads the product. It skips a missing product, and a line whose quantity,
    capped at the stock, is not positive. Otherwise it writes the next line number with
    that quantity and the product's current price, then lowers the product's stock by
    the same quantity. */
module Checkout {
  import opened Wrappers
  import opened Models
  import opened Catalog
  import opened CartLedger

  /** The order lines written so far and the products table as it then stands. */
  datatype Committed = Committed(lines: seq<OrderLine>, products: seq<Product>)

  /** One step of the loop, for one aggregated cart entry. */
  function CommitItem(ono: int, c: Committed, item: CartItem): Committed {
    match Find(c.products, item.pid)
    case None => c
    case Some(p) =>
      var use := Min(item.qty, p.stockCount);
      if use <= 0 then c
      else Committed(c.lines + [OrderLine(ono, |c.lines| + 1, item.pid, use, p.price)],
                     ReplaceRow(c.products, p.(stockCount := p.stockCount - use)))
  }

  /** The whole loop over the aggregated cart `items`, starting from no lines. */
  function Commit(ono: int, items: seq<CartItem>, products: seq<Product>): Committed {
    if items == [] then Committed([], products)
    else CommitItem(ono, Commit(ono, items[..|items| - 1], products), items[|items| - 1])
  }

  /** The quantity the lines took of one product. */
  function LineQty(lines: seq<OrderLine>, pid: int): int {
    if lines == [] then 0
    else LineQty(lines[..|lines| - 1], pid) + (if lines[|lines| - 1].pid == pid then lines[|lines| - 1].qty else 0)
  }

  /** A cart entry yields a line when its product exists and min(quantity, stock) > 0. */
  predicate Yields(item: CartItem, products: seq<Product>) {
    Find(products, item.pid).Some? && Min(item.qty, Find(products, item.pid).value.stockCount) > 0
  }

  /** The entries that yield lines, in cart order: an independent description of the loop. */
  function Yielding(items: seq<CartItem>, products: seq<Product>): (r: seq<CartItem>)
    ensures forall it :: it in r ==> it in items && Yields(it, products)
    ensures forall k :: 0 <= k < |r| ==> Yields(r[k], products)
  {
    if items == [] then []
    else Yielding(items[..|items| - 1], products) +
         (if Yields(items[|items| - 1], products) then [items[|items| - 1]] else [])
  }

  /** The line an entry yields when read against the products as they were at the start. */
  function ExpectedLine(ono: int, lineNo: int, item: CartItem, products: seq<Product>): OrderLine
    requires Find(products, item.pid).Some?
  {
    var p := Find(products, item.pid).value;
    OrderLine(ono, lineNo, item.pid, Min(item.qty, p.stockCount), p.price)
  }

  /** Lines of order `ono`, numbered 1, 2, 3, ... in order, each with a positive quantity. */
  predicate DenselyNumbered(ono: int, lines: seq<OrderLine>) {
    forall i :: 0 <= i < |lines| ==> lines[i].ono == ono && lines[i].lineNo == i + 1 && lines[i].qty > 0
  }

  predicate DistinctItemPids(items: seq<CartItem>) {
    forall i, j :: 0 <= i < j < |items| ==> items[i].pid != items[j].pid
  }

  // ---------------------------------------------------------------------------
  // Properties
  // ---------------------------------------------------------------------------

  /** Committed lines carry the order number and are numbered 1, 2, 3, ... with no gap;
      every line has a positive quantity. */
  lemma {:induction false} CommitNumbersDensely(ono: int, items: seq<CartItem>, products: seq<Product>)
    ensures DenselyNumbered(ono, Commit(ono, items, products).lines)
  {
    if items != [] {
      var init := items[..|items| - 1];
      var item := items[|items| - 1];
      CommitNumbersDensely(ono, init, products);
      var c := Commit(ono, init, products);
      assert Commit(ono, items, products) == CommitItem(ono, c, item);
      match Find(c.products, item.pid)
      case None =>
        assert Commit(ono, items, products).lines == c.lines;
      case Some(p) =>
        assert Commit(ono, items, products).lines[..|c.lines|] == c.lines;
    }
  }

  /** The loop keeps the products table in pid order, with the same pids. */
  lemma {:induction false} CommitKeepsTable(ono: int, items: seq<CartItem>, products: seq<Product>)
    requires PidOrdered(products)
    ensures PidOrdered(Commit(ono, items, products).products)
    ensures Pids(Commit(ono, items, products).products) == Pids(products)
  {
    if items != [] {
      CommitKeepsTable(ono, items[..|items| - 1], products);
      var c := Commit(ono, items[..|items| - 1], products);
      var item := items[|items| - 1];
      match Find(c.products, item.pid)
      case None =>
      case Some(p) =>
        var r := ReplaceRow(c.products, p.(stockCount := p.stockCount - Min(item.qty, p.stockCount)));
        ReplaceKeepsOrder(c.products, p.(stockCount := p.stockCount - Min(item.qty, p.stockCount)));
        assert Pids(r) == Pids(c.products);
    }
  }

  /** One step leaves every other product, and the quantity taken of it, as they were. */
  lemma StepLeavesOthers(ono: int, c: Committed, item: CartItem, pid: int)
    requires PidOrdered(c.products) && pid != item.pid
    ensures Find(CommitItem(ono, c, item).products, pid) == Find(c.products, pid)
    ensures LineQty(CommitItem(ono, c, item).lines, pid) == LineQty(c.lines, pid)
  {
    match Find(c.products, item.pid)
    case None =>
    case Some(q) =>
      var use := Min(item.qty, q.stockCount);
      if use > 0 {
        PidOrderedIsDistinct(c.products);
        FindAfterReplace(c.products, q.(stockCount := q.stockCount - use), pid);
        var lines := CommitItem(ono, c, item).lines;
        assert lines[..|lines| - 1] == c.lines;
      }
  }

  /** From `c` to `c'`, a missing product changes nothing, and an existing one has its stock
      lowered by the quantity its new lines took. */
  predicate TookFromStock(c: Committed, c': Committed, pid: int) {
    var took := LineQty(c'.lines, pid) - LineQty(c.lines, pid);
    match Find(c.products, pid)
    case None => c' == c
    case Some(q) => Find(c'.products, pid) == Some(q.(stockCount := q.stockCount - took))
  }

  /** One step lowers its own product's stock by exactly the quantity it writes. */
  lemma StepTakesStock(ono: int, c: Committed, item: CartItem)
    requires PidOrdered(c.products)
    ensures TookFromStock(c, CommitItem(ono, c, item), item.pid)
  {
    match Find(c.products, item.pid)
    case None =>
    case Some(q) =>
      var use := Min(item.qty, q.stockCount);
      if use > 0 {
        PidOrderedIsDistinct(c.products);
        FindAfterReplace(c.products, q.(stockCount := q.stockCount - use), item.pid);
        var lines := CommitItem(ono, c, item).lines;
        assert lines[..|lines| - 1] == c.lines;
      }
  }

  /** Against the products before the loop: a missing product stays missing and took
      nothing; an existing one differs only in its stock, lowered by what its lines took. */
  predicate StockAccounted(before: seq<Product>, c: Committed, pid: int) {
    match Find(before, pid)
    case None => Find(c.products, pid).None? && LineQty(c.lines, pid) == 0
    case Some(p) => Find(c.products, pid) == Some(p.(stockCount := p.stockCount - LineQty(c.lines, pid)))
  }

  /** One step keeps the account of its own product. */
  lemma StepAccountsOwn(ono: int, before: seq<Product>, c: Committed, item: CartItem)
    requires PidOrdered(c.products) && StockAccounted(before, c, item.pid)
    ensures StockAccounted(before, CommitItem(ono, c, item), item.pid)
  {
    StepTakesStock(ono, c, item);
    TakeKeepsAccount(before, c, CommitItem(ono, c, item), item.pid);
  }

  /** Lowering a product's stock by what its new lines took keeps its account. */
  lemma TakeKeepsAccount(before: seq<Product>, c: Committed, c': Committed, pid: int)
    requires StockAccounted(before, c, pid)
    requires TookFromStock(c, c', pid)
    ensures StockAccounted(before, c', pid)
  {
    match Find(before, pid)
    case None =>
    case Some(p) =>
      var q := p.(stockCount := p.stockCount - LineQty(c.lines, pid));
      assert Find(c.products, pid) == Some(q);
  }

  /** One step keeps the account of every product. */
  lemma StepAccounts(ono: int, before: seq<Product>, c: Committed, item: CartItem, pid: int)
    requires PidOrdered(c.products) && StockAccounted(before, c, pid)
    ensures StockAccounted(before, CommitItem(ono, c, item), pid)
  {
    if pid == item.pid {
      StepAccountsOwn(ono, before, c, item);
    } else {
      StepLeavesOthers(ono, c, item, pid);
      AccountCarriesOver(before, c, CommitItem(ono, c, item), pid);
    }
  }

  /** A product whose row and taken quantity did not change keeps its account. */
  lemma AccountCarriesOver(before: seq<Product>, c: Committed, c': Committed, pid: int)
    requires StockAccounted(before, c, pid)
    requires Find(c'.products, pid) == Find(c.products, pid)
    requires LineQty(c'.lines, pid) == LineQty(c.lines, pid)
    ensures StockAccounted(before, c', pid)
  {
  }

  /** Every product's stock falls by exactly the quantity its lines took, and nothing else
      about any product changes. */
  lemma {:induction false} CommitStock(ono: int, items: seq<CartItem>, products: seq<Product>, pid: int)
    requires PidOrdered(products)
    ensures StockAccounted(products, Commit(ono, items, products), pid)
  {
    if items != [] {
      var init := items[..|items| - 1];
      var item := items[|items| - 1];
      CommitStock(ono, init, products, pid);
      CommitKeepsTable(ono, init, products);
      var c := Commit(ono, init, products);
      StepAccounts(ono, products, c, item, pid);
    }
  }

  /** Stock that was not negative stays not negative: a line never takes more than the
      stock it reads. */
  lemma {:induction false} CommitKeepsStockNonNegative(ono: int, items: seq<CartItem>, products: seq<Product>)
    requires forall p :: p in products ==> p.stockCount >= 0
    ensures forall p :: p in Commit(ono, items, products).products ==> p.stockCount >= 0
  {
    if items != [] {
      CommitKeepsStockNonNegative(ono, items[..|items| - 1], products);
      var c := Commit(ono, items[..|items| - 1], products);
      var item := items[|items| - 1];
      match Find(c.products, item.pid)
      case None =>
      case Some(q) =>
        var use := Min(item.qty, q.stockCount);
        if use > 0 {
          var r := ReplaceRow(c.products, q.(stockCount := q.stockCount - use));
          forall p | p in r ensures p.stockCount >= 0 {
            var i :| 0 <= i < |r| && r[i] == p;
            assert c.products[i] in c.products;
          }
        }
    }
  }

  /** Until a pid has been processed, the loop has not touched its product. */
  lemma {:induction false} UnprocessedUntouched(ono: int, items: seq<CartItem>, products: seq<Product>, pid: int)
    requires PidOrdered(products)
    requires forall i :: 0 <= i < |items| ==> items[i].pid != pid
    ensures Find(Commit(ono, items, products).products, pid) == Find(products, pid)
  {
    if items != [] {
      var init := items[..|items| - 1];
      UnprocessedUntouched(ono, init, products, pid);
      CommitKeepsTable(ono, init, products);
      StepLeavesOthers(ono, Commit(ono, init, products), items[|items| - 1], pid);
    }
  }

  /** For a cart with one entry per pid (as `GROUP BY pid` gives), the loop writes exactly
      one line per yielding entry, in cart order: the k-th such entry becomes line k + 1,
      with quantity min(cart quantity, stock) and the product's price, both as they were
      before checkout. */
  lemma {:induction false} CommitMatchesYielding(ono: int, items: seq<CartItem>, products: seq<Product>)
    requires PidOrdered(products)
    requires DistinctItemPids(items)
    ensures var lines := Commit(ono, items, products).lines;
            var y := Yielding(items, products);
            && |lines| == |y|
            && forall k :: 0 <= k < |y| ==> lines[k] == ExpectedLine(ono, k + 1, y[k], products)
  {
    if items != [] {
      var init := items[..|items| - 1];
      var item := items[|items| - 1];
      assert DistinctItemPids(init);
      CommitMatchesYielding(ono, init, products);
      UnprocessedUntouched(ono, init, products, item.pid);
    }
  }

  /** The loop writes no line for an empty cart. */
  lemma EmptyCartNoLines(ono: int, products: seq<Product>)
    ensures Commit(ono, [], products) == Committed([], products)
  {
  }
}
