/** The products table as the store reads it: rows in primary-key (pid) order, point
    lookups by pid, in-place row updates, and the keyword filter
    `LOWER(name) LIKE '%t%' OR LOWER(descr) LIKE '%t%'` with `ORDER BY pid`. */
module Catalog {
  import opened Wrappers
  import opened Text
  import opened Models

  /** The table in primary-key order: pids strictly ascending (so also distinct). */
  predicate PidOrdered(products: seq<Product>) {
    forall i, j :: 0 <= i < j < |products| ==> products[i].pid < products[j].pid
  }

  predicate DistinctPids(products: seq<Product>) {
    forall i, j :: 0 <= i < j < |products| ==> products[i].pid != products[j].pid
  }

  function Pids(products: seq<Product>): (pids: seq<int>)
    ensures |pids| == |products|
    ensures forall i :: 0 <= i < |products| ==> pids[i] == products[i].pid
  {
    if products == [] then [] else [products[0].pid] + Pids(products[1..])
  }

  /** `SELECT ... FROM products WHERE pid = ?`: the row with that pid, if any. */
  function Find(products: seq<Product>, pid: int): (r: Option<Product>)
    ensures r.Some? ==> r.value in products && r.value.pid == pid
    ensures r.None? ==> forall p :: p in products ==> p.pid != pid
  {
    if products == [] then None
    else if products[0].pid == pid then Some(products[0])
    else Find(products[1..], pid)
  }

  /** The stock the cart writers read: `int(row[0]) if row else 0`, so a missing product has none. */
  function StockOf(products: seq<Product>, pid: int): int {
    match Find(products, pid)
    case Some(p) => p.stockCount
    case None => 0
  }

  /** `UPDATE products SET ... WHERE pid = row.pid`: every row with that pid becomes `row`. */
  function ReplaceRow(products: seq<Product>, row: Product): (r: seq<Product>)
    ensures |r| == |products|
    ensures forall i :: 0 <= i < |r| ==> r[i].pid == products[i].pid
  {
    seq(|products|, i requires 0 <= i < |products| =>
      if products[i].pid == row.pid then row else products[i])
  }

  /** The keyword predicate for a lower-case term: the term occurs in the lower-cased name or description. */
  predicate Matches(p: Product, term: string) {
    Contains(Lower(p.name), term) || Contains(Lower(p.descr), term)
  }

  /** `WHERE <p matches term> ORDER BY pid` over the table. */
  function Matching(products: seq<Product>, term: string): (r: seq<Product>)
    ensures forall p :: p in r <==> p in products && Matches(p, term)
  {
    if products == [] then []
    else (if Matches(products[0], term) then [products[0]] else []) + Matching(products[1..], term)
  }

  predicate MatchesAny(p: Product, terms: seq<string>) {
    exists t :: t in terms && Matches(p, t)
  }

  /** `WHERE <p matches t1> OR <p matches t2> OR ... ORDER BY pid`; with no terms the
      condition is `1 = 0` and nothing matches. */
  function MatchingAny(products: seq<Product>, terms: seq<string>): (r: seq<Product>)
    ensures forall p :: p in r <==> p in products && MatchesAny(p, terms)
  {
    if products == [] then []
    else (if MatchesAny(products[0], terms) then [products[0]] else []) + MatchingAny(products[1..], terms)
  }

  // ---------------------------------------------------------------------------
  // Properties
  // ---------------------------------------------------------------------------

  lemma PidOrderedIsDistinct(products: seq<Product>)
    requires PidOrdered(products)
    ensures DistinctPids(products)
  {
  }

  /** With distinct pids, a lookup finds exactly the row that has the pid. */
  lemma {:induction false} FindRow(products: seq<Product>, p: Product)
    requires DistinctPids(products)
    requires p in products
    ensures Find(products, p.pid) == Some(p)
  {
    if products[0] != p {
      assert products[0].pid != p.pid by {
        var j :| 0 <= j < |products| && products[j] == p;
        assert j != 0;
      }
      FindRow(products[1..], p);
    }
  }

  /** After a row update, the updated pid reads as the new row and every other pid as before. */
  lemma FindAfterReplace(products: seq<Product>, row: Product, pid: int)
    requires DistinctPids(products)
    requires Find(products, row.pid).Some?
    ensures Find(ReplaceRow(products, row), pid) == if pid == row.pid then Some(row) else Find(products, pid)
  {
    var r := ReplaceRow(products, row);
    assert DistinctPids(r);
    if pid == row.pid {
      var old_row := Find(products, row.pid).value;
      var i :| 0 <= i < |products| && products[i] == old_row;
      assert r[i] == row;
      FindRow(r, row);
    } else {
      match Find(products, pid)
      case Some(p) =>
        var i :| 0 <= i < |products| && products[i] == p;
        assert r[i] == p;
        FindRow(r, p);
      case None =>
        assert forall q :: q in r ==> q.pid != pid;
    }
  }

  /** A row update keeps the table in pid order. */
  lemma ReplaceKeepsOrder(products: seq<Product>, row: Product)
    requires PidOrdered(products)
    ensures PidOrdered(ReplaceRow(products, row))
  {
  }

  /** A filter of a pid-ordered table is pid-ordered. */
  lemma {:induction false} MatchingKeepsOrder(products: seq<Product>, term: string)
    requires PidOrdered(products)
    ensures PidOrdered(Matching(products, term))
  {
    if products != [] {
      MatchingKeepsOrder(products[1..], term);
      var rest := Matching(products[1..], term);
      forall q | q in rest ensures products[0].pid < q.pid {
        var j :| 0 <= j < |products[1..]| && products[1..][j] == q;
        assert products[j + 1] == q;
      }
    }
  }

  lemma {:induction false} MatchingAnyKeepsOrder(products: seq<Product>, terms: seq<string>)
    requires PidOrdered(products)
    ensures PidOrdered(MatchingAny(products, terms))
  {
    if products != [] {
      MatchingAnyKeepsOrder(products[1..], terms);
      var rest := MatchingAny(products[1..], terms);
      forall q | q in rest ensures products[0].pid < q.pid {
        var j :| 0 <= j < |products[1..]| && products[1..][j] == q;
        assert products[j + 1] == q;
      }
    }
  }

  /** One term: the OR-condition is the plain keyword filter. */
  lemma {:induction false} MatchingAnySingle(products: seq<Product>, term: string)
    ensures MatchingAny(products, [term]) == Matching(products, term)
  {
    if products != [] {
      MatchingAnySingle(products[1..], term);
      assert MatchesAny(products[0], [term]) <==> Matches(products[0], term) by {
        if Matches(products[0], term) {
          assert term in [term];
        }
      }
    }
  }

  // ---------------------------------------------------------------------------
  // Price and stock administration
  // ---------------------------------------------------------------------------

  /** `update_product_price_stock`: the table with only the given fields of `pid`'s row
      replaced, or `None` (the function's `False`) when neither field is given or no
      product has the pid. */
  function PriceStockUpdated(products: seq<Product>, pid: int, newPrice: Option<Cents>, newStock: Option<int>): Option<seq<Product>> {
    if newPrice.None? && newStock.None? then None
    else
      match Find(products, pid)
      case None => None
      case Some(p) =>
        var price := if newPrice.Some? then newPrice.value else p.price;
        var stock := if newStock.Some? then newStock.value else p.stockCount;
        Some(ReplaceRow(products, p.(price := price, stockCount := stock)))
  }

  /** An update succeeds exactly when a field is given and the product exists; then the
      product keeps its name, category and description, takes each given field and keeps
      each omitted one, and every other product reads as before. */
  lemma PriceStockUpdateEffect(products: seq<Product>, pid: int, newPrice: Option<Cents>, newStock: Option<int>, other: int)
    requires PidOrdered(products)
    requires other != pid
    ensures var r := PriceStockUpdated(products, pid, newPrice, newStock);
            r.Some? <==> (newPrice.Some? || newStock.Some?) && Find(products, pid).Some?
    ensures var r := PriceStockUpdated(products, pid, newPrice, newStock);
            r.Some? ==>
              var p := Find(products, pid).value;
              && PidOrdered(r.value)
              && Find(r.value, pid).Some?
              && var q := Find(r.value, pid).value;
              && q.name == p.name && q.category == p.category && q.descr == p.descr
              && q.price == (if newPrice.Some? then newPrice.value else p.price)
              && q.stockCount == (if newStock.Some? then newStock.value else p.stockCount)
              && Find(r.value, other) == Find(products, other)
  {
    if (newPrice.Some? || newStock.Some?) && Find(products, pid).Some? {
      var p := Find(products, pid).value;
      var row := p.(price := if newPrice.Some? then newPrice.value else p.price,
                    stockCount := if newStock.Some? then newStock.value else p.stockCount);
      PidOrderedIsDistinct(products);
      FindAfterReplace(products, row, pid);
      FindAfterReplace(products, row, other);
      ReplaceKeepsOrder(products, row);
    }
  }
}
