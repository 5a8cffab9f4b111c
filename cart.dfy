/** The cart table of src/db/crud.py as a ledger of `(cid, sessionNo, pid, qty)` rows.

    A customer's cart spans sessions: readers group by `(cid, pid)` and sum the quantities,
    and every writer consolidates a pair by deleting all of its rows and inserting one row
    tagged with the current session. Each writer re-reads the product's stock, which is a
    parameter here (a missing product reads as stock 0). */
module CartLedger {
  import opened Wrappers
  import opened Models
  import opened Sorting

  predicate IsPair(item: CartItem, cid: int, pid: int) {
    item.cid == cid && item.pid == pid
  }

  function Min(a: int, b: int): (m: int)
    ensures m <= a && m <= b && (m == a || m == b)
  {
    if a <= b then a else b
  }

  /** The rows of one (customer, product) pair, in table order. */
  function PairRows(cart: seq<CartItem>, cid: int, pid: int): seq<CartItem> {
    if cart == [] then []
    else (if IsPair(cart[0], cid, pid) then [cart[0]] else []) + PairRows(cart[1..], cid, pid)
  }

  function SumQty(rows: seq<CartItem>): int {
    if rows == [] then 0 else rows[0].qty + SumQty(rows[1..])
  }

  /** `SELECT COALESCE(SUM(qty), 0) FROM cart WHERE cid=? AND pid=?`. */
  function PairTotal(cart: seq<CartItem>, cid: int, pid: int): int {
    SumQty(PairRows(cart, cid, pid))
  }

  /** `DELETE FROM cart WHERE cid=? AND pid=?`. */
  function WithoutPair(cart: seq<CartItem>, cid: int, pid: int): seq<CartItem> {
    if cart == [] then []
    else (if IsPair(cart[0], cid, pid) then [] else [cart[0]]) + WithoutPair(cart[1..], cid, pid)
  }

  /** `DELETE FROM cart WHERE cid=?`. */
  function WithoutCustomer(cart: seq<CartItem>, cid: int): seq<CartItem> {
    if cart == [] then []
    else (if cart[0].cid == cid then [] else [cart[0]]) + WithoutCustomer(cart[1..], cid)
  }

  /** The delete-then-insert every cart writer ends with. */
  function Consolidated(cart: seq<CartItem>, cid: int, sessionNo: int, pid: int, qty: int): seq<CartItem> {
    WithoutPair(cart, cid, pid) + [CartItem(cid, sessionNo, pid, qty)]
  }

  /** `add_to_cart`: nothing happens for a non-positive quantity or stock; otherwise the
      pair's summed quantity grows by `qty`, capped at the stock. */
  function AddedToCart(cart: seq<CartItem>, stock: int, cid: int, sessionNo: int, pid: int, qty: int): seq<CartItem> {
    if stock <= 0 || qty <= 0 then cart
    else Consolidated(cart, cid, sessionNo, pid, Min(PairTotal(cart, cid, pid) + qty, stock))
  }

  /** The `ValueError("Quantity cannot be negative.")` of `update_cart_qty`. */
  datatype CartError = NegativeQuantity

  /** `update_cart_qty`: a negative quantity is an error, zero removes the pair, anything
      else becomes the pair's quantity capped at the stock. Only the positive case reads
      the stock. */
  function UpdatedCartQty(cart: seq<CartItem>, stock: int, cid: int, sessionNo: int, pid: int, qty: int): Result<seq<CartItem>, CartError> {
    if qty < 0 then Failure(NegativeQuantity)
    else if qty == 0 then Success(WithoutPair(cart, cid, pid))
    else Success(Consolidated(cart, cid, sessionNo, pid, Min(qty, stock)))
  }

  /** `set_cart_qty_if_in_stock`: `None` stands for returning False with the cart unchanged. */
  function SetIfInStock(cart: seq<CartItem>, stock: int, cid: int, sessionNo: int, pid: int, qty: int): Option<seq<CartItem>> {
    if qty < 0 || qty > stock then None
    else Some(Consolidated(cart, cid, sessionNo, pid, qty))
  }

  /** The pids of a customer's rows, in table order, repeats included. */
  function CustomerPids(cart: seq<CartItem>, cid: int): (pids: seq<int>)
    ensures forall pid :: pid in pids <==> PairRows(cart, cid, pid) != []
    ensures (forall it :: it in cart ==> it.cid != cid) ==> pids == []
  {
    if cart == [] then []
    else
      var rest := CustomerPids(cart[1..], cid);
      if cart[0].cid == cid then [cart[0].pid] + rest else rest
  }

  /** `list_cart`: `SELECT cid, pid, SUM(qty) FROM cart WHERE cid = ? GROUP BY cid, pid`,
      one entry per pid in ascending pid order, each tagged with the caller's session. */
  function CartListing(cart: seq<CartItem>, cid: int, sessionNo: int): seq<CartItem> {
    var groups := SortedDistinct(CustomerPids(cart, cid));
    seq(|groups|, i requires 0 <= i < |groups| => CartItem(cid, sessionNo, groups[i], PairTotal(cart, cid, groups[i])))
  }

  /** Every pair has at most one row: what every writer leaves behind for its own pair. */
  predicate OneRowPerPair(cart: seq<CartItem>) {
    forall i, j :: 0 <= i < j < |cart| ==> !IsPair(cart[j], cart[i].cid, cart[i].pid)
  }

  // ---------------------------------------------------------------------------
  // The filters
  // ---------------------------------------------------------------------------

  /** The pair's rows are exactly the cart rows of that pair. */
  lemma {:induction false} PairRowsMembers(cart: seq<CartItem>, cid: int, pid: int)
    ensures forall it :: it in PairRows(cart, cid, pid) <==> it in cart && IsPair(it, cid, pid)
  {
    if cart != [] {
      PairRowsMembers(cart[1..], cid, pid);
      assert forall it :: it in cart <==> it == cart[0] || it in cart[1..];
    }
  }

  /** Deleting a pair keeps exactly the rows of other pairs. */
  lemma {:induction false} WithoutPairMembers(cart: seq<CartItem>, cid: int, pid: int)
    ensures forall it :: it in WithoutPair(cart, cid, pid) <==> it in cart && !IsPair(it, cid, pid)
  {
    if cart != [] {
      WithoutPairMembers(cart[1..], cid, pid);
      assert forall it :: it in cart <==> it == cart[0] || it in cart[1..];
    }
  }

  /** Deleting a customer's rows keeps exactly the rows of other customers. */
  lemma {:induction false} WithoutCustomerMembers(cart: seq<CartItem>, cid: int)
    ensures forall it :: it in WithoutCustomer(cart, cid) <==> it in cart && it.cid != cid
  {
    if cart != [] {
      WithoutCustomerMembers(cart[1..], cid);
      assert forall it :: it in cart <==> it == cart[0] || it in cart[1..];
    }
  }

  lemma {:induction false} PairRowsAppend(a: seq<CartItem>, b: seq<CartItem>, cid: int, pid: int)
    ensures PairRows(a + b, cid, pid) == PairRows(a, cid, pid) + PairRows(b, cid, pid)
  {
    if a == [] {
      assert a + b == b;
    } else {
      assert (a + b)[0] == a[0] && (a + b)[1..] == a[1..] + b;
      PairRowsAppend(a[1..], b, cid, pid);
      if IsPair(a[0], cid, pid) {
        calc {
          PairRows(a + b, cid, pid);
          [a[0]] + PairRows(a[1..] + b, cid, pid);
          [a[0]] + (PairRows(a[1..], cid, pid) + PairRows(b, cid, pid));
          ([a[0]] + PairRows(a[1..], cid, pid)) + PairRows(b, cid, pid);
          PairRows(a, cid, pid) + PairRows(b, cid, pid);
        }
      } else {
        calc {
          PairRows(a + b, cid, pid);
          [] + PairRows(a[1..] + b, cid, pid);
          PairRows(a[1..], cid, pid) + PairRows(b, cid, pid);
          PairRows(a, cid, pid) + PairRows(b, cid, pid);
        }
      }
    }
  }

  lemma {:induction false} WithoutPairAppend(a: seq<CartItem>, b: seq<CartItem>, cid: int, pid: int)
    ensures WithoutPair(a + b, cid, pid) == WithoutPair(a, cid, pid) + WithoutPair(b, cid, pid)
  {
    if a == [] {
      assert a + b == b;
    } else {
      assert (a + b)[0] == a[0] && (a + b)[1..] == a[1..] + b;
      WithoutPairAppend(a[1..], b, cid, pid);
      if IsPair(a[0], cid, pid) {
        calc {
          WithoutPair(a + b, cid, pid);
          [] + WithoutPair(a[1..] + b, cid, pid);
          WithoutPair(a[1..], cid, pid) + WithoutPair(b, cid, pid);
          WithoutPair(a, cid, pid) + WithoutPair(b, cid, pid);
        }
      } else {
        calc {
          WithoutPair(a + b, cid, pid);
          [a[0]] + WithoutPair(a[1..] + b, cid, pid);
          [a[0]] + (WithoutPair(a[1..], cid, pid) + WithoutPair(b, cid, pid));
          ([a[0]] + WithoutPair(a[1..], cid, pid)) + WithoutPair(b, cid, pid);
          WithoutPair(a, cid, pid) + WithoutPair(b, cid, pid);
        }
      }
    }
  }

  /** Deleting a pair's rows keeps every other row, in order. */
  lemma {:induction false} WithoutPairKeepsOthers(cart: seq<CartItem>, cid: int, pid: int, c: int, p: int)
    requires c != cid || p != pid
    ensures PairRows(WithoutPair(cart, cid, pid), c, p) == PairRows(cart, c, p)
  {
    if cart != [] {
      WithoutPairKeepsOthers(cart[1..], cid, pid, c, p);
      var head := if IsPair(cart[0], cid, pid) then [] else [cart[0]];
      PairRowsAppend(head, WithoutPair(cart[1..], cid, pid), c, p);
    }
  }

  lemma {:induction false} WithoutPairIdempotent(cart: seq<CartItem>, cid: int, pid: int)
    ensures WithoutPair(WithoutPair(cart, cid, pid), cid, pid) == WithoutPair(cart, cid, pid)
  {
    if cart != [] {
      WithoutPairIdempotent(cart[1..], cid, pid);
      var head := if IsPair(cart[0], cid, pid) then [] else [cart[0]];
      WithoutPairAppend(head, WithoutPair(cart[1..], cid, pid), cid, pid);
    }
  }

  lemma {:induction false} NoPairRowsLeft(cart: seq<CartItem>, cid: int, pid: int)
    ensures PairRows(WithoutPair(cart, cid, pid), cid, pid) == []
  {
    if cart != [] {
      NoPairRowsLeft(cart[1..], cid, pid);
      var head := if IsPair(cart[0], cid, pid) then [] else [cart[0]];
      PairRowsAppend(head, WithoutPair(cart[1..], cid, pid), cid, pid);
      assert PairRows(head, cid, pid) == [];
    }
  }

  /** After a consolidation the pair has exactly the inserted row, and every other row is
      kept in order. */
  lemma ConsolidatedRows(cart: seq<CartItem>, cid: int, sessionNo: int, pid: int, qty: int)
    ensures var r := Consolidated(cart, cid, sessionNo, pid, qty);
            && PairRows(r, cid, pid) == [CartItem(cid, sessionNo, pid, qty)]
            && PairTotal(r, cid, pid) == qty
            && WithoutPair(r, cid, pid) == WithoutPair(cart, cid, pid)
  {
    var kept := WithoutPair(cart, cid, pid);
    var item := CartItem(cid, sessionNo, pid, qty);
    PairRowsAppend(kept, [item], cid, pid);
    NoPairRowsLeft(cart, cid, pid);
    WithoutPairAppend(kept, [item], cid, pid);
    WithoutPairIdempotent(cart, cid, pid);
    assert PairRows([item], cid, pid) == [item];
    assert WithoutPair([item], cid, pid) == [];
    assert kept + [] == kept;
    assert SumQty([item]) == qty;
  }

  lemma ConsolidatedKeepsOthers(cart: seq<CartItem>, cid: int, sessionNo: int, pid: int, qty: int, c: int, p: int)
    requires c != cid || p != pid
    ensures PairRows(Consolidated(cart, cid, sessionNo, pid, qty), c, p) == PairRows(cart, c, p)
  {
    var item := CartItem(cid, sessionNo, pid, qty);
    PairRowsAppend(WithoutPair(cart, cid, pid), [item], c, p);
    WithoutPairKeepsOthers(cart, cid, pid, c, p);
    assert PairRows([item], c, p) == [];
  }

  // ---------------------------------------------------------------------------
  // The writers
  // ---------------------------------------------------------------------------

  /** `add_to_cart` is a no-op for a non-positive quantity or stock (a missing product has
      stock 0). Otherwise the pair ends with one row, tagged with the caller's session,
      holding min(previous total + qty, stock); all other rows are kept. */
  lemma AddToCartEffect(cart: seq<CartItem>, stock: int, cid: int, sessionNo: int, pid: int, qty: int)
    ensures stock <= 0 || qty <= 0 ==> AddedToCart(cart, stock, cid, sessionNo, pid, qty) == cart
    ensures stock > 0 && qty > 0 ==>
              var r := AddedToCart(cart, stock, cid, sessionNo, pid, qty);
              var total := Min(PairTotal(cart, cid, pid) + qty, stock);
              && PairRows(r, cid, pid) == [CartItem(cid, sessionNo, pid, total)]
              && PairTotal(r, cid, pid) <= stock
              && WithoutPair(r, cid, pid) == WithoutPair(cart, cid, pid)
  {
    if stock > 0 && qty > 0 {
      ConsolidatedRows(cart, cid, sessionNo, pid, Min(PairTotal(cart, cid, pid) + qty, stock));
    }
  }

  /** `update_cart_qty` fails exactly on a negative quantity. Zero deletes the pair; a
      positive quantity leaves one row with min(qty, stock). Other rows are kept either way. */
  lemma UpdateCartQtyEffect(cart: seq<CartItem>, stock: int, cid: int, sessionNo: int, pid: int, qty: int)
    ensures UpdatedCartQty(cart, stock, cid, sessionNo, pid, qty).Failure? <==> qty < 0
    ensures qty == 0 ==>
              var r := UpdatedCartQty(cart, stock, cid, sessionNo, pid, qty).value;
              PairRows(r, cid, pid) == [] && PairTotal(r, cid, pid) == 0
              && WithoutPair(r, cid, pid) == WithoutPair(cart, cid, pid)
    ensures qty > 0 ==>
              var r := UpdatedCartQty(cart, stock, cid, sessionNo, pid, qty).value;
              PairRows(r, cid, pid) == [CartItem(cid, sessionNo, pid, Min(qty, stock))]
              && PairTotal(r, cid, pid) <= stock
              && WithoutPair(r, cid, pid) == WithoutPair(cart, cid, pid)
  {
    if qty == 0 {
      NoPairRowsLeft(cart, cid, pid);
      WithoutPairIdempotent(cart, cid, pid);
    } else if qty > 0 {
      ConsolidatedRows(cart, cid, sessionNo, pid, Min(qty, stock));
    }
  }

  /** Removing a pair with quantity 0 twice is the same as removing it once. */
  lemma UpdateToZeroIdempotent(cart: seq<CartItem>, stock: int, cid: int, sessionNo: int, pid: int)
    ensures var once := UpdatedCartQty(cart, stock, cid, sessionNo, pid, 0).value;
            UpdatedCartQty(once, stock, cid, sessionNo, pid, 0) == Success(once)
  {
    WithoutPairIdempotent(cart, cid, pid);
  }

  /** A positive update of a product without stock does not remove the pair: it leaves one
      row with quantity 0 (or the negative stock), which `list_cart` then reports. */
  lemma UpdateOutOfStockKeepsRow(cart: seq<CartItem>, stock: int, cid: int, sessionNo: int, pid: int, qty: int)
    requires qty > 0 && stock <= 0
    ensures PairRows(UpdatedCartQty(cart, stock, cid, sessionNo, pid, qty).value, cid, pid) ==
            [CartItem(cid, sessionNo, pid, stock)]
  {
    ConsolidatedRows(cart, cid, sessionNo, pid, stock);
  }

  /** `set_cart_qty_if_in_stock` refuses exactly a negative quantity or one above the
      stock; otherwise the pair holds one row with exactly `qty` and other rows are kept. */
  lemma SetIfInStockEffect(cart: seq<CartItem>, stock: int, cid: int, sessionNo: int, pid: int, qty: int)
    ensures SetIfInStock(cart, stock, cid, sessionNo, pid, qty).None? <==> qty < 0 || qty > stock
    ensures 0 <= qty <= stock ==>
              var r := SetIfInStock(cart, stock, cid, sessionNo, pid, qty).value;
              PairRows(r, cid, pid) == [CartItem(cid, sessionNo, pid, qty)]
              && WithoutPair(r, cid, pid) == WithoutPair(cart, cid, pid)
  {
    if 0 <= qty <= stock {
      ConsolidatedRows(cart, cid, sessionNo, pid, qty);
    }
  }

  /** Within the stock the two setters agree; they differ on zero (one deletes, the other
      writes a zero row) and above the stock (one caps, the other refuses). */
  lemma SettersAgreeWithinStock(cart: seq<CartItem>, stock: int, cid: int, sessionNo: int, pid: int, qty: int)
    requires 0 < qty <= stock
    ensures UpdatedCartQty(cart, stock, cid, sessionNo, pid, qty) ==
            Success(SetIfInStock(cart, stock, cid, sessionNo, pid, qty).value)
  {
  }

  /** `remove_from_cart` leaves the pair with no rows and every other row as it was. */
  lemma RemoveEffect(cart: seq<CartItem>, cid: int, pid: int, c: int, p: int)
    ensures PairRows(WithoutPair(cart, cid, pid), cid, pid) == []
    ensures c != cid || p != pid ==> PairRows(WithoutPair(cart, cid, pid), c, p) == PairRows(cart, c, p)
  {
    NoPairRowsLeft(cart, cid, pid);
    if c != cid || p != pid {
      WithoutPairKeepsOthers(cart, cid, pid, c, p);
    }
  }

  /** `clear_cart` empties the customer's cart in every session and keeps the rows of every
      other customer. */
  lemma {:induction false} ClearEffect(cart: seq<CartItem>, cid: int, sessionNo: int, c: int, p: int)
    ensures CartListing(WithoutCustomer(cart, cid), cid, sessionNo) == []
    ensures c != cid ==> PairRows(WithoutCustomer(cart, cid), c, p) == PairRows(cart, c, p)
  {
    var r := WithoutCustomer(cart, cid);
    WithoutCustomerMembers(cart, cid);
    assert CustomerPids(r, cid) == [];
    if c != cid && cart != [] {
      ClearEffect(cart[1..], cid, sessionNo, c, p);
      var head := if cart[0].cid == cid then [] else [cart[0]];
      PairRowsAppend(head, WithoutCustomer(cart[1..], cid), c, p);
    }
  }

  /** Every writer keeps "one row per pair" when it held before. */
  lemma ConsolidatedKeepsOneRowPerPair(cart: seq<CartItem>, cid: int, sessionNo: int, pid: int, qty: int)
    requires OneRowPerPair(cart)
    ensures OneRowPerPair(Consolidated(cart, cid, sessionNo, pid, qty))
  {
    var kept := WithoutPair(cart, cid, pid);
    WithoutPairKeepsOneRow(cart, cid, pid);
    WithoutPairMembers(cart, cid, pid);
    var r := kept + [CartItem(cid, sessionNo, pid, qty)];
    forall i, j | 0 <= i < j < |r| ensures !IsPair(r[j], r[i].cid, r[i].pid) {
      if j == |r| - 1 {
        assert r[i] in kept;
      }
    }
  }

  lemma {:induction false} WithoutPairKeepsOneRow(cart: seq<CartItem>, cid: int, pid: int)
    requires OneRowPerPair(cart)
    ensures OneRowPerPair(WithoutPair(cart, cid, pid))
  {
    if cart != [] {
      OneRowTail(cart);
      WithoutPairKeepsOneRow(cart[1..], cid, pid);
      WithoutPairMembers(cart[1..], cid, pid);
      if !IsPair(cart[0], cid, pid) {
        ConsKeepsOneRow(cart[0], WithoutPair(cart[1..], cid, pid));
      }
    }
  }

  lemma {:induction false} WithoutCustomerKeepsOneRow(cart: seq<CartItem>, cid: int)
    requires OneRowPerPair(cart)
    ensures OneRowPerPair(WithoutCustomer(cart, cid))
  {
    if cart != [] {
      OneRowTail(cart);
      WithoutCustomerKeepsOneRow(cart[1..], cid);
      WithoutCustomerMembers(cart[1..], cid);
      if cart[0].cid != cid {
        ConsKeepsOneRow(cart[0], WithoutCustomer(cart[1..], cid));
      }
    }
  }

  /** Below the first row the cart still has one row per pair, none of them the first row's pair. */
  lemma OneRowTail(cart: seq<CartItem>)
    requires OneRowPerPair(cart) && cart != []
    ensures OneRowPerPair(cart[1..])
    ensures forall it :: it in cart[1..] ==> !IsPair(it, cart[0].cid, cart[0].pid)
  {
    var tail := cart[1..];
    forall i, j | 0 <= i < j < |tail| ensures !IsPair(tail[j], tail[i].cid, tail[i].pid) {
      assert tail[i] == cart[i + 1] && tail[j] == cart[j + 1];
    }
    forall it | it in tail ensures !IsPair(it, cart[0].cid, cart[0].pid) {
      var k :| 0 <= k < |tail| && tail[k] == it;
      assert cart[k + 1] == it;
    }
  }

  /** A row put in front of rows of other pairs keeps one row per pair. */
  lemma ConsKeepsOneRow(x: CartItem, rest: seq<CartItem>)
    requires OneRowPerPair(rest)
    requires forall it :: it in rest ==> !IsPair(it, x.cid, x.pid)
    ensures OneRowPerPair([x] + rest)
  {
    var r := [x] + rest;
    forall i, j | 0 <= i < j < |r| ensures !IsPair(r[j], r[i].cid, r[i].pid) {
      if i == 0 {
        assert r[j] in rest;
      } else {
        assert r[i] == rest[i - 1] && r[j] == rest[j - 1];
      }
    }
  }

  // ---------------------------------------------------------------------------
  // The reader
  // ---------------------------------------------------------------------------

  /** `list_cart` gives one entry per product the customer has in any session, in
      ascending pid order, with the summed quantity and the caller's session number. */
  lemma ListingShape(cart: seq<CartItem>, cid: int, sessionNo: int)
    ensures var items := CartListing(cart, cid, sessionNo);
            && (forall i, j :: 0 <= i < j < |items| ==> items[i].pid < items[j].pid)
            && (forall i :: 0 <= i < |items| ==>
                  items[i].cid == cid && items[i].sessionNo == sessionNo
                  && items[i].qty == PairTotal(cart, cid, items[i].pid))
            && (forall pid :: (exists i :: 0 <= i < |items| && items[i].pid == pid) <==>
                                PairRows(cart, cid, pid) != [])
  {
    var items := CartListing(cart, cid, sessionNo);
    var groups := SortedDistinct(CustomerPids(cart, cid));
    forall pid ensures (exists i :: 0 <= i < |items| && items[i].pid == pid) <==> PairRows(cart, cid, pid) != [] {
      if PairRows(cart, cid, pid) != [] {
        var it := PairRows(cart, cid, pid)[0];
        assert it in PairRows(cart, cid, pid);
        assert pid in groups;
        var i :| 0 <= i < |groups| && groups[i] == pid;
        assert items[i].pid == pid;
      }
      if exists i :: 0 <= i < |items| && items[i].pid == pid {
        var i :| 0 <= i < |items| && items[i].pid == pid;
        assert groups[i] in groups;
      }
    }
  }
}
