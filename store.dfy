/** The data-access layer of src/db/crud.py: every function is one atomic operation on a
    `Store` that holds the database's tables. Each method does what the function's SQL
    statements and Python loops do, and states its result and the new tables through the
    specification functions of the other modules. */
module Crud {
  import opened Wrappers
  import opened Text
  import opened Models
  import opened Sorting
  import opened Catalog
  import opened Paging
  import opened ProductSearch
  import opened CartLedger
  import opened Orders
  import opened Checkout
  import opened Ranking
  import opened Accounts

  /** The order numbers `checkout` draws: six digits, not yet used. */
  predicate FreeOno(orders: seq<Order>, ono: int) {
    100000 <= ono <= 999999 && forall o :: o in orders ==> o.ono != ono
  }

  /** The session numbers `start_session` draws: in 1000..999999, not yet used by the customer. */
  predicate FreeSessionNo(sessions: Sessions, cid: int, sessionNo: int) {
    1000 <= sessionNo <= 999999 && (cid, sessionNo) !in sessions
  }

  /** What `checkout` does to the order and product tables keeps their invariants, and the
      new order reads back with exactly the lines the loop wrote, whose amounts make its
      total. */
  lemma CheckoutKeepsTables(orders: seq<Order>, orderlines: seq<OrderLine>, products: seq<Product>,
                            order: Order, items: seq<CartItem>)
    requires PidOrdered(products) && OrderTables(orders, orderlines)
    requires forall o :: o in orders ==> o.ono != order.ono
    ensures var c := Commit(order.ono, items, products);
            && PidOrdered(c.products)
            && OrderTables(orders + [order], orderlines + c.lines)
            && OrderDetail(orders + [order], orderlines + c.lines, order.ono) == (Some(order), c.lines)
            && OrderTotal(orderlines + c.lines, order.ono) == SumAmounts(c.lines)
  {
    var c := Commit(order.ono, items, products);
    CommitNumbersDensely(order.ono, items, products);
    CommitKeepsTable(order.ono, items, products);
    PlaceOrderKeepsTables(orders, orderlines, order, c.lines);
  }

  class Store {
    var users: Users
    var customers: Customers
    var sessions: Sessions
    var products: seq<Product>
    var cart: seq<CartItem>
    var orders: seq<Order>
    var orderlines: seq<OrderLine>
    var searches: seq<Search>
    var views: seq<ViewedProduct>

    /** What the operations keep: keyed rows, the products table in pid order, one cart
        row per (customer, product), and consistent order tables. */
    ghost predicate Valid()
      reads this
    {
      AccountsKeyed() && CatalogOrdered() && CartConsolidated() && OrdersConsistent()
    }

    ghost predicate AccountsKeyed()
      reads this`users, this`customers, this`sessions
    {
      KeyedRows(users, customers, sessions)
    }

    ghost predicate CatalogOrdered()
      reads this`products
    {
      PidOrdered(products)
    }

    ghost predicate CartConsolidated()
      reads this`cart
    {
      OneRowPerPair(cart)
    }

    ghost predicate OrdersConsistent()
      reads this`orders, this`orderlines
    {
      OrderTables(orders, orderlines)
    }

    /** A database holding only a product catalog. */
    constructor (catalog: seq<Product>)
      requires PidOrdered(catalog)
      ensures Valid()
      ensures products == catalog
      ensures users == map[] && customers == map[] && sessions == map[]
      ensures cart == [] && orders == [] && orderlines == [] && searches == [] && views == []
    {
      users, customers, sessions := map[], map[], map[];
      products := catalog;
      cart, orders, orderlines, searches, views := [], [], [], [], [];
    }

    // -------------------------------------------------------------------------
    // Accounts and sessions
    // -------------------------------------------------------------------------

    /** `email_available`: when it answers yes, registering the address makes the new
        customer its only holder; when it answers no, some customer already holds it. */
    method EmailAvailable(email: string) returns (available: bool)
      ensures available <==> EmailFree(customers, email)
      ensures available ==> forall uid, name, pwd ::
                OnlyOwner(Registered(users, customers, uid, name, email, pwd).1, email, uid)
      ensures !available ==> exists cid :: cid in customers && customers[cid].email == email
    {
      available := forall cid | cid in customers :: customers[cid].email != email;
      if available {
        forall uid, name, pwd ensures OnlyOwner(Registered(users, customers, uid, name, email, pwd).1, email, uid) {
          FreeEmailHasOneOwner(users, customers, uid, name, email, pwd);
        }
      }
    }

    /** `_generate_uid_unique` and `generate_uid`: some unused id in 1000..999999. The
        random draw is a free choice here. */
    method GenerateUid() returns (uid: int)
      requires exists u :: FreeUid(users, u)
      ensures FreeUid(users, uid)
    {
      uid :| FreeUid(users, uid);
    }

    /** `register_customer`: a user with role customer and a customer row, both under a
        fresh id. */
    method RegisterCustomer(name: string, email: string, pwd: string) returns (uid: int, cid: int)
      requires Valid()
      requires exists u :: FreeUid(users, u)
      modifies this`users, this`customers
      ensures Valid()
      ensures FreeUid(old(users), uid) && cid == uid && uid !in old(customers)
      ensures (users, customers) == Registered(old(users), old(customers), uid, name, email, pwd)
    {
      uid := GenerateUid();
      FreshUidAddsCustomer(users, customers, sessions, uid, name, email, pwd);
      RegisterKeepsKeys(users, customers, sessions, uid, name, email, pwd);
      cid := uid;
      users := users[uid := User(uid, pwd, Customer)];
      customers := customers[cid := CustomerAccount(cid, name, email)];
    }

    /** `login`: what `get_user` returns when the password is that user's, else nothing;
        a returned user carries the given id and password. */
    method Login(uid: int, pwd: string) returns (user: Option<User>)
      ensures user == LoginResult(users, uid, pwd)
      ensures user.Some? <==> uid in users && users[uid].pwd == pwd
      ensures user == if UserOf(users, uid).Some? && UserOf(users, uid).value.pwd == pwd then UserOf(users, uid) else None
      ensures AccountsKeyed() && user.Some? ==> user.value.uid == uid && user.value.pwd == pwd
    {
      LoginIsUserWithPassword(users, uid, pwd);
      if AccountsKeyed() {
        ReadersCarryKey(users, customers, sessions, uid, pwd);
      }
      if uid in users && users[uid].pwd == pwd {
        user := Some(users[uid]);
      } else {
        user := None;
      }
    }

    /** `get_user_role`: the role of the user `get_user` finds. */
    method GetUserRole(uid: int) returns (role: Option<Role>)
      ensures role == RoleOf(users, uid)
      ensures role == if UserOf(users, uid).Some? then Some(UserOf(users, uid).value.role) else None
    {
      RoleIsUsersRole(users, uid);
      role := if uid in users then Some(users[uid].role) else None;
    }

    /** `get_user`: the user with the queried id, if there is one. */
    method GetUser(uid: int) returns (user: Option<User>)
      ensures user == UserOf(users, uid)
      ensures user.Some? <==> uid in users
      ensures AccountsKeyed() && user.Some? ==> user.value.uid == uid
    {
      if AccountsKeyed() {
        ReadersCarryKey(users, customers, sessions, uid, "");
      }
      user := if uid in users then Some(users[uid]) else None;
    }

    /** `get_customer`: the customer row of a registered user with the queried id. */
    method GetCustomer(uid: int) returns (customer: Option<CustomerAccount>)
      ensures customer == CustomerOf(users, customers, uid)
      ensures customer.Some? <==> uid in users && uid in customers
      ensures AccountsKeyed() && customer.Some? ==> customer.value.cid == uid && UserOf(users, uid).Some?
    {
      if AccountsKeyed() {
        ReadersCarryKey(users, customers, sessions, uid, "");
      }
      customer := if uid in users && uid in customers then Some(customers[uid]) else None;
    }

    /** `start_session`: a fresh session number for the customer and an open session. */
    method StartSession(cid: int, startTime: Timestamp) returns (sessionNo: int)
      requires Valid()
      requires exists s :: FreeSessionNo(sessions, cid, s)
      modifies this`sessions
      ensures Valid()
      ensures FreeSessionNo(old(sessions), cid, sessionNo)
      ensures sessions == SessionStarted(old(sessions), cid, sessionNo, startTime)
    {
      sessionNo :| FreeSessionNo(sessions, cid, sessionNo);
      sessions := sessions[(cid, sessionNo) := Session(cid, sessionNo, startTime, Open)];
    }

    /** `end_session`. */
    method EndSession(cid: int, sessionNo: int, endTime: Timestamp)
      requires Valid()
      modifies this`sessions
      ensures Valid()
      ensures sessions == SessionEnded(old(sessions), cid, sessionNo, endTime)
    {
      if (cid, sessionNo) in sessions {
        sessions := sessions[(cid, sessionNo) := sessions[(cid, sessionNo)].(endTime := Ended(endTime))];
      }
    }

    // -------------------------------------------------------------------------
    // Products
    // -------------------------------------------------------------------------

    /** `mixed_product_search_sales`: the staged queries, with `add_rows` and the loop over
        the distinct words. */
    method MixedProductSearchSales(query: string) returns (result: Result<seq<Product>, SearchError>)
      ensures result.Failure? <==> PidOverflows(query)
      ensures result.Failure? ==> (result.error == DigitLimitExceeded <==> DigitLimitHit(query))
      ensures result.Success? ==> result.value == MixedSearchResult(products, query)
    {
      var phrase := Lower(Strip(query));
      assert phrase == Phrase(query);
      if phrase == [] {
        return Success(products);
      }
      var results: seq<Product>;
      var seen: set<int>;
      if IsDigits(phrase) {
        if |phrase| > INT_MAX_STR_DIGITS {
          return Failure(DigitLimitExceeded);
        }
        var pid := DigitsValue(phrase);
        if pid > SQLITE_INT_MAX {
          return Failure(PidTooLarge);
        }
        var exact := WithPid(products, pid);
        results, seen := AddRows([], {}, exact);
        if exact == [] {
          results, seen := AddRows(results, seen, Matching(products, phrase));
        }
        return Success(results);
      }
      var words := Split(phrase);
      if |words| > 1 {
        results, seen := AddRows([], {}, Matching(products, phrase));
        results := AddWordMatches(results, seen, words);
        return Success(results);
      }
      return Success(Matching(products, phrase));
    }

    /** The word loop of `mixed_product_search_sales`: one `add_rows` per word not seen before. */
    method AddWordMatches(first: seq<Product>, seen0: set<int>, words: seq<string>) returns (results: seq<Product>)
      requires seen0 == PidSet(first)
      ensures results == Staged(first, products, FreshWords([], words))
    {
      results := first;
      var seen := seen0;
      var seenWords: set<string> := {};
      for i := 0 to |words|
        invariant results == Staged(first, products, FreshWords([], words[..i]))
        invariant seen == PidSet(results)
        invariant seenWords == set w | w in words[..i]
      {
        assert words[..i + 1][..i] == words[..i];
        var w := words[i];
        var done := FreshWords([], words[..i]);
        if w !in seenWords {
          assert done + [w] == FreshWords([], words[..i + 1]);
          assert (done + [w])[..|done|] == done;
          seenWords := seenWords + {w};
          results, seen := AddRows(results, seen, Matching(products, w));
        } else {
          assert done == FreshWords([], words[..i + 1]);
        }
      }
      assert words[..|words|] == words;
    }

    /** `search_products`: a page of the products matching any term, the total, and the
        raw keyword appended to the search log. */
    method SearchProducts(keyword: string, cid: int, sessionNo: int, when: Timestamp, page: int, pageSize: int)
      returns (rows: seq<Product>, total: int)
      modifies this`searches
      ensures (rows, total) == CustomerSearch(products, keyword, page, pageSize)
      ensures searches == old(searches) + [Search(cid, sessionNo, when, keyword)]
    {
      var phrase := Lower(Strip(keyword));
      var terms := BuildTerms(phrase);
      var matches := MatchingAny(products, terms);
      total := |matches|;
      rows := SqlPage(matches, pageSize, PageOffset(page, pageSize));
      searches := searches + [Search(cid, sessionNo, when, keyword)];
    }

    /** `record_view`. */
    method RecordView(cid: int, sessionNo: int, pid: int, ts: Timestamp)
      modifies this`views
      ensures views == old(views) + [ViewedProduct(cid, sessionNo, ts, pid)]
    {
      views := views + [ViewedProduct(cid, sessionNo, ts, pid)];
    }

    /** `get_product`. */
    method GetProduct(pid: int) returns (product: Option<Product>)
      ensures product.Some? ==> product.value in products && product.value.pid == pid
      ensures product.None? <==> forall p :: p in products ==> p.pid != pid
    {
      product := Find(products, pid);
    }

    /** `product_exists`. */
    method ProductExists(pid: int) returns (found: bool)
      ensures found <==> exists p :: p in products && p.pid == pid
    {
      found := Find(products, pid).Some?;
    }

    /** `product_stock`. */
    method ProductStock(pid: int) returns (stock: Option<int>)
      requires Valid()
      ensures stock.None? <==> forall p :: p in products ==> p.pid != pid
      ensures forall p :: p in products && p.pid == pid ==> stock == Some(p.stockCount)
    {
      var row := Find(products, pid);
      stock := if row.Some? then Some(row.value.stockCount) else None;
      PidOrderedIsDistinct(products);
      forall p | p in products && p.pid == pid ensures stock == Some(p.stockCount) {
        FindRow(products, p);
      }
    }

    /** `update_product_price_stock`. */
    method UpdateProductPriceStock(pid: int, newPrice: Option<Cents>, newStock: Option<int>) returns (updated: bool)
      requires Valid()
      modifies this`products
      ensures Valid()
      ensures var r := PriceStockUpdated(old(products), pid, newPrice, newStock);
              updated == r.Some? && products == if r.Some? then r.value else old(products)
    {
      if newPrice.None? && newStock.None? {
        return false;
      }
      var row := Find(products, pid);
      if row.None? {
        return false;
      }
      var p := row.value;
      var price := if newPrice.Some? then newPrice.value else p.price;
      var stock := if newStock.Some? then newStock.value else p.stockCount;
      ReplaceKeepsOrder(products, p.(price := price, stockCount := stock));
      products := ReplaceRow(products, p.(price := price, stockCount := stock));
      updated := true;
    }

    // -------------------------------------------------------------------------
    // Cart
    // -------------------------------------------------------------------------

    /** `list_cart`. */
    method ListCart(cid: int, sessionNo: int) returns (items: seq<CartItem>)
      ensures items == CartListing(cart, cid, sessionNo)
      ensures forall i, j :: 0 <= i < j < |items| ==> items[i].pid < items[j].pid
      ensures forall i :: 0 <= i < |items| ==>
                items[i].cid == cid && items[i].sessionNo == sessionNo
                && items[i].qty == PairTotal(cart, cid, items[i].pid)
      ensures forall pid :: (exists i :: 0 <= i < |items| && items[i].pid == pid) <==>
                            PairRows(cart, cid, pid) != []
    {
      items := CartListing(cart, cid, sessionNo);
      ListingShape(cart, cid, sessionNo);
    }

    /** `add_to_cart`: read the stock, then delete the pair's rows and insert one row with
        the summed quantity plus `qty`, capped at the stock. */
    method AddToCart(cid: int, sessionNo: int, pid: int, qty: int)
      requires Valid()
      modifies this`cart
      ensures Valid()
      ensures cart == AddedToCart(old(cart), StockOf(products, pid), cid, sessionNo, pid, qty)
    {
      var stock := StockOf(products, pid);
      if stock <= 0 || qty <= 0 {
        return;
      }
      var newTotal := Min(PairTotal(cart, cid, pid) + qty, stock);
      ConsolidatedKeepsOneRowPerPair(cart, cid, sessionNo, pid, newTotal);
      cart := WithoutPair(cart, cid, pid);
      cart := cart + [CartItem(cid, sessionNo, pid, newTotal)];
    }

    /** `update_cart_qty`: `Some(NegativeQuantity)` is the `ValueError`. */
    method UpdateCartQty(cid: int, sessionNo: int, pid: int, qty: int) returns (err: Option<CartError>)
      requires Valid()
      modifies this`cart
      ensures Valid()
      ensures var u := UpdatedCartQty(old(cart), StockOf(products, pid), cid, sessionNo, pid, qty);
              && (u.Failure? ==> err == Some(u.error) && cart == old(cart))
              && (u.Success? ==> err == None && cart == u.value)
    {
      if qty < 0 {
        return Some(NegativeQuantity);
      }
      err := None;
      if qty == 0 {
        WithoutPairKeepsOneRow(cart, cid, pid);
        cart := WithoutPair(cart, cid, pid);
        return;
      }
      var stock := StockOf(products, pid);
      var capped := Min(qty, stock);
      ConsolidatedKeepsOneRowPerPair(cart, cid, sessionNo, pid, capped);
      cart := WithoutPair(cart, cid, pid);
      cart := cart + [CartItem(cid, sessionNo, pid, capped)];
    }

    /** `set_cart_qty_if_in_stock`. */
    method SetCartQtyIfInStock(cid: int, sessionNo: int, pid: int, qty: int) returns (accepted: bool)
      requires Valid()
      modifies this`cart
      ensures Valid()
      ensures var s := SetIfInStock(old(cart), StockOf(products, pid), cid, sessionNo, pid, qty);
              accepted == s.Some? && cart == if s.Some? then s.value else old(cart)
    {
      if qty < 0 {
        return false;
      }
      var stock := StockOf(products, pid);
      if qty > stock {
        return false;
      }
      ConsolidatedKeepsOneRowPerPair(cart, cid, sessionNo, pid, qty);
      cart := WithoutPair(cart, cid, pid);
      cart := cart + [CartItem(cid, sessionNo, pid, qty)];
      accepted := true;
    }

    /** `remove_from_cart`. */
    method RemoveFromCart(cid: int, sessionNo: int, pid: int)
      requires Valid()
      modifies this`cart
      ensures Valid()
      ensures cart == WithoutPair(old(cart), cid, pid)
    {
      WithoutPairKeepsOneRow(cart, cid, pid);
      cart := WithoutPair(cart, cid, pid);
    }

    /** `clear_cart`. */
    method ClearCart(cid: int, sessionNo: int)
      requires Valid()
      modifies this`cart
      ensures Valid()
      ensures cart == WithoutCustomer(old(cart), cid)
    {
      WithoutCustomerKeepsOneRow(cart, cid);
      cart := WithoutCustomer(cart, cid);
    }

    // -------------------------------------------------------------------------
    // Checkout and orders
    // -------------------------------------------------------------------------

    /** `checkout`: the order is placed from the customer's cart aggregated over every
        session, then that cart is emptied in every session. */
    method Checkout(cid: int, sessionNo: int, shippingAddress: string, odate: Timestamp) returns (ono: int)
      requires Valid()
      requires exists n :: FreeOno(orders, n)
      modifies this`orders, this`orderlines, this`products, this`cart
      ensures Valid()
      ensures FreeOno(old(orders), ono)
      ensures orders == old(orders) + [Order(ono, cid, sessionNo, odate, shippingAddress)]
      ensures orderlines == old(orderlines) + Commit(ono, CartListing(old(cart), cid, sessionNo), old(products)).lines
      ensures products == Commit(ono, CartListing(old(cart), cid, sessionNo), old(products)).products
      ensures cart == WithoutCustomer(old(cart), cid)
    {
      var items := CartListing(cart, cid, sessionNo);
      ono := PlaceOrder(cid, sessionNo, shippingAddress, odate, items);
      WithoutCustomerKeepsOneRow(cart, cid);
      cart := WithoutCustomer(cart, cid);
    }

    /** The body of `checkout` up to the cart deletion: a fresh order number, the order
        header, and one line per aggregated cart entry that yields one. */
    method PlaceOrder(cid: int, sessionNo: int, shippingAddress: string, odate: Timestamp, items: seq<CartItem>)
      returns (ono: int)
      requires CatalogOrdered() && OrdersConsistent()
      requires exists n :: FreeOno(orders, n)
      modifies this`orders, this`orderlines, this`products
      ensures CatalogOrdered() && OrdersConsistent()
      ensures FreeOno(old(orders), ono)
      ensures orders == old(orders) + [Order(ono, cid, sessionNo, odate, shippingAddress)]
      ensures orderlines == old(orderlines) + Commit(ono, items, old(products)).lines
      ensures products == Commit(ono, items, old(products)).products
    {
      ono := FreshOno();
      var order := Order(ono, cid, sessionNo, odate, shippingAddress);
      CheckoutKeepsTables(orders, orderlines, products, order, items);
      orders := orders + [order];
      WriteLines(ono, items);
    }

    /** The retry loop of `checkout` that draws random six-digit numbers until one is
        unused; the draw is a free choice here. */
    method FreshOno() returns (ono: int)
      requires exists n :: FreeOno(orders, n)
      ensures FreeOno(orders, ono)
    {
      ono :| FreeOno(orders, ono);
    }

    /** The line loop of `checkout`: per aggregated cart entry, re-read the product, skip it
        when missing or when min(quantity, stock) is not positive, else write the next line
        and lower the stock. */
    method WriteLines(ono: int, items: seq<CartItem>)
      modifies this`orderlines, this`products
      ensures orderlines == old(orderlines) + Commit(ono, items, old(products)).lines
      ensures products == Commit(ono, items, old(products)).products
    {
      ghost var lines0, products0 := orderlines, products;
      var lineNo := 1;
      for i := 0 to |items|
        invariant orderlines == lines0 + Commit(ono, items[..i], products0).lines
        invariant products == Commit(ono, items[..i], products0).products
        invariant lineNo == |Commit(ono, items[..i], products0).lines| + 1
      {
        assert items[..i + 1][..i] == items[..i];
        var item := items[i];
        ghost var c := Commit(ono, items[..i], products0);
        assert Commit(ono, items[..i + 1], products0) == CommitItem(ono, c, item);
        var row := Find(products, item.pid);
        if row.None? {
          continue;
        }
        var p := row.value;
        var use := Min(item.qty, p.stockCount);
        if use <= 0 {
          continue;
        }
        orderlines := orderlines + [OrderLine(ono, lineNo, item.pid, use, p.price)];
        products := ReplaceRow(products, p.(stockCount := p.stockCount - use));
        lineNo := lineNo + 1;
      }
      assert items[..|items|] == items;
    }

    /** `list_orders`. */
    method ListOrders(cid: int, page: int, pageSize: int) returns (rows: seq<Order>, total: int)
      ensures (rows, total) == OrdersPage(orders, cid, page, pageSize)
      ensures forall o :: o in rows ==> o in orders && o.cid == cid
      ensures forall i, j :: 0 <= i < j < |rows| ==> rows[i].odate >= rows[j].odate
      ensures pageSize >= 0 ==> |rows| <= pageSize
      ensures total == |CustomerOrders(orders, cid)|
    {
      var mine := CustomerOrders(orders, cid);
      total := |mine|;
      rows := SqlPage(SortBy(mine, NewerThan), pageSize, PageOffset(page, pageSize));
      OrdersPageShape(orders, cid, page, pageSize);
    }

    /** `get_order_detail`. */
    method GetOrderDetail(ono: int) returns (order: Option<Order>, lines: seq<OrderLine>)
      ensures (order, lines) == OrderDetail(orders, orderlines, ono)
      ensures order.None? <==> forall o :: o in orders ==> o.ono != ono
      ensures order.None? ==> lines == []
      ensures order.Some? ==> order.value in orders && order.value.ono == ono
      ensures order.Some? && OrdersConsistent() ==>
                lines == LinesWithOno(orderlines, ono) && forall i :: 0 <= i < |lines| ==> lines[i].lineNo == i + 1
    {
      order := FindOrder(orders, ono);
      lines := if order.Some? then OrderLines(orderlines, ono) else [];
      if order.Some? && OrdersConsistent() {
        DenseOrderLines(orderlines, ono);
      }
    }

    /** `compute_order_total`. */
    method ComputeOrderTotal(ono: int) returns (total: int)
      ensures total == OrderTotal(orderlines, ono)
      ensures OrdersConsistent() && (forall o :: o in orders ==> o.ono != ono) ==> total == 0
    {
      total := SumAmounts(LinesWithOno(orderlines, ono));
      if OrdersConsistent() && forall o :: o in orders ==> o.ono != ono {
        UnknownOrder(orders, orderlines, ono);
      }
    }

    // -------------------------------------------------------------------------
    // Sales reports
    // -------------------------------------------------------------------------

    /** `top_products_by_orders`. */
    method TopProductsByOrders(k: int, includeTies: bool) returns (rows: seq<Ranked>)
      ensures rows == TopK(OrderCounts(orderlines), k, includeTies)
      ensures IsReport(OrderCounts(orderlines), k, includeTies, rows)
      ensures forall r :: r in rows ==> exists l :: l in orderlines && l.pid == r.pid
    {
      var ranking := OrderCounts(orderlines);
      rows := TopK(ranking, k, includeTies);
      OrderCountsRanked(orderlines);
      TopKIsReport(ranking, k, includeTies);
    }

    /** `top_products_by_views`. */
    method TopProductsByViews(k: int, includeTies: bool) returns (rows: seq<Ranked>)
      ensures rows == TopK(ViewCounts(views), k, includeTies)
      ensures IsReport(ViewCounts(views), k, includeTies, rows)
      ensures forall r :: r in rows ==> r.count == ViewsOf(views, r.pid) && r.count > 0
    {
      var ranking := ViewCounts(views);
      rows := TopK(ranking, k, includeTies);
      ViewCountsRanked(views);
      TopKIsReport(ranking, k, includeTies);
    }
  }
}
