# textual-invmgr data layer, modelled in Dafny

textual-invmgr is a terminal shop and inventory manager. Its data layer,
`src/db/crud.py`, keeps these tables:

- users, customers and sessions;
- products, and each customer's cart;
- orders and order lines;
- a log of searches and of product views.

Every operation of the data layer opens a connection, runs a few SQL
statements, commits, and returns plain values. `src/utils/pure.py` renders
rows as a Markdown table for the sales reports.

Each table is modelled as a value:

- accounts are maps keyed like their primary keys;
- products, cart rows, orders, order lines, searches and views are sequences in table (rowid) order.

`Crud.Store` (store.dfy) is a class with one field per table. Each data-layer
function is a method that changes only the tables the function writes. Every
writer keeps the invariant `Store.Valid`:

- rows are keyed by their ids;
- the products table is in ascending pid order;
- no (customer, product) pair has two cart rows;
- order numbers are unique;
- every order line belongs to an order;
- each order's lines are numbered 1, 2, 3, … in table order.

What a method computes is given by functions over those values. Those
functions live in one module per concern:

| module | concern |
|---|---|
| `Accounts` | registration, login and sessions |
| `Catalog` | product lookup, the `LIKE` filters and the price/stock update |
| `ProductSearch` | the sales-side mixed search and the customer search |
| `CartLedger` | the cart writers and the cart listing |
| `Checkout` | the line-writing loop of checkout |
| `Orders` | order listing, detail and total |
| `Ranking` | the top-product reports |
| `Convert` | `_to_int` |
| `MarkdownTable` | `generate_markdown_table` |

The lemmas beside these functions state what the code promises:

- a pair keeps one row holding its capped summed quantity;
- checkout lowers each stock by exactly what it wrote and numbers its lines densely;
- the tie-inclusive report is the prefix of the ranking at the k-th count;
- `int(str(n)) == n`;
- the rendered table splits back into its lines.

Helper modules:

- `Text` models Python's `strip`, `lower`, `split`, `join` and `isdigit`, and `LIKE '%t%'` as `Contains`;
- `Paging` models SQLite's `LIMIT ? OFFSET ?`;
- `Sorting` holds the insertion sorts that stand for `ORDER BY` and `GROUP BY`;
- `Models` holds the rows;
- `Wrappers` holds `Option` and `Result`.

The Python code draws the free customer id, the session number and the order
number with `random.randint`, retrying until the value is unused. The model
takes any value that meets the same constraints.

## Model

| member | source | states |
|---|---|---|
| Convert.ToInt | src/db/crud.py:12-16 | a string gives a value exactly when its stripped text is an integer literal (optional sign, digits, single underscores between digits); an all-digit string gives its decimal value; any value read from a string prints back to a string that reads as the same value |
| Convert.ToIntShowRoundTrip | src/db/crud.py:12-16 | `_to_int(str(n)) == n` for every integer n, negative ones included |
| Convert.ToIntIgnoresPadding | src/db/crud.py:12-16 | any whitespace-only prefix and suffix leave the result unchanged |
| Convert.ToIntRejects | src/db/crud.py:12-16 | `None` gives `None`; a string gives `None` instead of raising iff its stripped text is not an integer literal, in particular whenever it holds a character other than a digit, `_`, `+` or `-` (such as `"nan"`) |
| Convert.ParseNegativeDigits | src/db/crud.py:12-16 | `"-" + digits` parses to minus the digits' value |
| Text.StripPadded | src/db/crud.py:12-16 | stripping ignores any whitespace-only prefix and suffix |
| Crud.Store.EmailAvailable | src/db/crud.py:24-32 | false exactly when some customer holds the email; when true, registering any new customer with it leaves that customer its only holder |
| Crud.Store.GenerateUid | src/db/crud.py:35-62 | the id is in 1000..999999 and not yet a user |
| Crud.Store.RegisterCustomer | src/db/crud.py:65-81 | draws a free id that keys neither a user nor a customer, adds a customer user and a customer row under it; cid is that id; the invariant holds |
| Accounts.FreshUidAddsCustomer | src/db/crud.py:65-81 | when every customer is a user, a fresh id keys no customer, so registration adds exactly one customer row and replaces none |
| Accounts.RegisterThenLogin | src/db/crud.py:65-98 | after registering, login succeeds with the password and fails with any other; the role is customer; the customer reads back; the email is taken; other logins are unchanged |
| Accounts.RegisterKeepsKeys | src/db/crud.py:65-81 | registration keeps every row stored under its own key and every customer a user |
| Crud.Store.Login | src/db/crud.py:84-98 | returns what `get_user` returns when that user's password matches and `None` otherwise; a returned user carries the queried uid and the given password |
| Accounts.LoginIsUserWithPassword | src/db/crud.py:84-121 | login succeeds iff `get_user` finds the user and the password is theirs, and then returns that user |
| Accounts.ReadersCarryKey | src/db/crud.py:84-135 | with rows keyed by id, `get_user` and `login` return a user with the queried uid (`login` also with the given password), and `get_customer` a customer whose cid is the uid and who is also a user |
| Accounts.RoleIsUsersRole | src/db/crud.py:101-121 | `get_user_role` is the role of the user `get_user` finds, and `None` when it finds none |
| Accounts.FreeEmailHasOneOwner | src/db/crud.py:24-81 | registering with an available email makes the new customer its only holder |
| Crud.Store.GetUserRole | src/db/crud.py:101-107 | the role of the user `get_user` would return, `None` exactly for an unknown id |
| Crud.Store.GetUser | src/db/crud.py:110-121 | a user exactly when the id is a user, and that user carries the queried uid |
| Crud.Store.GetCustomer | src/db/crud.py:124-135 | a customer exactly when the id is both a user and a customer; the customer's cid is the queried uid and a user with that uid exists |
| Crud.Store.StartSession | src/db/crud.py:143-165 | draws a session number in 1000..999999 that the customer has not used and opens that session |
| Crud.Store.EndSession | src/db/crud.py:168-175 | sets the end time of that session, or changes nothing when it does not exist |
| Accounts.SessionLifecycle | src/db/crud.py:143-175 | a started session is open; ending it records the end time; ending an unknown session changes nothing |
| Accounts.EndSessionTouchesOnlyItself | src/db/crud.py:168-175 | every other session is unchanged and the keys stay consistent |
| Crud.Store.MixedProductSearchSales | src/db/crud.py:183-333 | fails exactly when the phrase is all digits and either has more than 4300 digits (leading zeros included: `int(phrase)` raises `ValueError`, reported as `DigitLimitExceeded`) or names a value above SQLite's largest integer (the binding's `OverflowError`, reported as `PidTooLarge`); otherwise the result is the mixed search of the product table for the query |
| ProductSearch.ShortQueriesNeverOverflow | src/db/crud.py:246-257 | a query of at most 18 non-blank characters never fails: it is within the digit limit and its value binds |
| ProductSearch.LongNinesOverflow | src/db/crud.py:246-257 | a query of 19 or more nines always overflows it, so the failure path is reachable |
| ProductSearch.ZeroPaddedPidFails | src/db/crud.py:246-257 | `"0" * n + "7"` with at least 4300 zeros names pid 7, yet has too many digits for `int()`, so the search fails on length and not on value |
| ProductSearch.DigitsArePhrase | src/db/crud.py:183-257 | an all-digit query is its own phrase: stripping and lower-casing leave it unchanged |
| Crud.Store.AddWordMatches | src/db/crud.py:299-316 | the word loop appends, per new word, the matching products not yet emitted |
| ProductSearch.AddRows | src/db/crud.py:224-243 | `add_rows` appends the rows whose pid is new and keeps `seen` equal to the emitted pids |
| ProductSearch.AddNewMembers | src/db/crud.py:224-243 | a row is emitted iff it was emitted before or is given and its pid is new |
| ProductSearch.AddNewDistinct | src/db/crud.py:224-243 | `add_rows` never emits a pid twice |
| ProductSearch.AddNewExtends | src/db/crud.py:224-243 | `add_rows` only appends |
| ProductSearch.FreshWordsMembers | src/db/crud.py:299-316 | a word is searched iff it is in the phrase's words and is not the phrase |
| ProductSearch.FreshWordsDistinct | src/db/crud.py:299-316 | no word is searched twice |
| ProductSearch.MixedBlankListsAll | src/db/crud.py:212-222 | a blank query lists every product in pid order |
| ProductSearch.MixedExactPidWins | src/db/crud.py:246-265 | an all-digit query naming an existing pid returns just that product |
| ProductSearch.MixedDigitsFallBack | src/db/crud.py:246-278 | an all-digit query naming no product falls back to the phrase match (for the method, when the pid binds) |
| ProductSearch.MixedSingleWord | src/db/crud.py:321-333 | a one-word query returns the products whose name or description contain it, the same as the customer search's filter |
| ProductSearch.MixedMultiWordIsStaged | src/db/crud.py:282-318 | a multi-word query gives the phrase matches, then the matches of each new word |
| ProductSearch.MixedMultiWord | src/db/crud.py:282-318 | phrase matches come first, no pid repeats, and a product is listed iff it matches the phrase or one of its words |
| ProductSearch.MixedNoDuplicates | src/db/crud.py:183-333 | the mixed search never lists a product twice |
| ProductSearch.MixedAgreesWithCustomerTerms | src/db/crud.py:282-371 | for a multi-word query both searches find the same products |
| ProductSearch.BuildTerms | src/db/crud.py:357-371 | the loop builds the phrase followed by its distinct words |
| ProductSearch.TermsOfBlank | src/db/crud.py:357-384 | a blank keyword has no terms and matches nothing (`1 = 0`) |
| ProductSearch.TermsOfMultiWord | src/db/crud.py:357-371 | a multi-word keyword searches the phrase first, then each distinct word |
| ProductSearch.TermsDistinct | src/db/crud.py:357-371 | no term is searched twice |
| ProductSearch.CustomerSearchPage | src/db/crud.py:336-412 | a page holds matching catalog products in pid order, at most `page_size` of them; the total lies between 0 and the catalog size |
| ProductSearch.BlankSearchFindsNothing | src/db/crud.py:353-412 | a blank keyword gives no rows and a total of 0 |
| ProductSearch.SearchPagesAdjoin | src/db/crud.py:400-412 | page 1 followed by page 2 is the first `2 * page_size` matches, so no row is skipped or repeated |
| Crud.Store.SearchProducts | src/db/crud.py:336-432 | returns the page and total of the customer search and logs one search row |
| Crud.Store.RecordView | src/db/crud.py:435-442 | appends one view row |
| Catalog.Matching | src/db/crud.py:374-384 | the filter keeps exactly the products whose lower-cased name or description contains the term |
| Catalog.MatchingAny | src/db/crud.py:374-384 | the OR-filter keeps exactly the products that match some term |
| Catalog.MatchingAnyKeepsOrder | src/db/crud.py:374-397 | the matches stay in pid order |
| Crud.Store.GetProduct | src/db/crud.py:445-463 | returns a product with that pid, or `None` exactly when there is none |
| Crud.Store.ProductExists | src/db/crud.py:865-870 | true iff some product has the pid |
| Crud.Store.ProductStock | src/db/crud.py:873-880 | that product's stock, or `None` exactly when there is none |
| Catalog.FindAfterReplace | src/db/crud.py:833-862 | after the update the product reads as the new row; every other product is unchanged |
| Catalog.PriceStockUpdateEffect | src/db/crud.py:833-862 | succeeds iff a field is given and the product exists; given fields change, omitted ones and name, category and description stay, other products are untouched, pid order is kept |
| Crud.Store.UpdateProductPriceStock | src/db/crud.py:833-862 | returns whether the update happened; on success the table is the updated one, otherwise it is unchanged |
| Crud.Store.ListCart | src/db/crud.py:471-485 | one item per product in the customer's cart, in ascending pid, with the summed quantity over sessions under the current session number |
| CartLedger.ListingShape | src/db/crud.py:471-485 | the listing is pid-ascending, lists a pid iff the customer has a row for it, and carries the pair's total quantity |
| CartLedger.CustomerPids | src/db/crud.py:471-485 | a pid is among the customer's pids iff the customer has a row for it |
| Crud.Store.AddToCart | src/db/crud.py:488-521 | the cart becomes the add-to-cart result; one row per pair is kept |
| CartLedger.AddToCartEffect | src/db/crud.py:488-521 | no change for a non-positive quantity or stock; otherwise one row of `min(total + qty, stock)` under the current session; other pairs are untouched |
| CartLedger.ConsolidatedRows | src/db/crud.py:516-520 | delete-then-insert leaves exactly one row for the pair, holding the quantity |
| CartLedger.ConsolidatedKeepsOthers | src/db/crud.py:516-520 | delete-then-insert leaves every other pair's rows unchanged |
| CartLedger.ConsolidatedKeepsOneRowPerPair | src/db/crud.py:516-520 | every writer keeps one row per pair |
| Crud.Store.UpdateCartQty | src/db/crud.py:524-553 | a negative quantity is an error that leaves the cart unchanged; otherwise the cart becomes the update's result |
| CartLedger.UpdateCartQtyEffect | src/db/crud.py:524-553 | fails iff qty < 0; qty 0 removes the pair; a positive qty gives one row of `min(qty, stock)`; other pairs are untouched |
| CartLedger.UpdateToZeroIdempotent | src/db/crud.py:532-538 | setting a quantity to zero twice is the same as once |
| CartLedger.UpdateOutOfStockKeepsRow | src/db/crud.py:540-553 | with no stock, a positive update still writes a row whose quantity is the stock (0 or less) |
| Crud.Store.SetCartQtyIfInStock | src/db/crud.py:883-908 | returns whether the quantity was set; on refusal the cart is unchanged |
| CartLedger.SetIfInStockEffect | src/db/crud.py:883-908 | refused iff qty < 0 or qty > stock; otherwise one row of exactly qty, other pairs untouched |
| CartLedger.SettersAgreeWithinStock | src/db/crud.py:524-553 | for 0 < qty <= stock, `update_cart_qty` and `set_cart_qty_if_in_stock` write the same cart |
| Crud.Store.RemoveFromCart | src/db/crud.py:556-563 | deletes the pair's rows in every session |
| CartLedger.RemoveEffect | src/db/crud.py:556-563 | no row of the pair is left; other pairs are untouched |
| CartLedger.WithoutPairIdempotent | src/db/crud.py:556-563 | removing twice is the same as removing once |
| Crud.Store.ClearCart | src/db/crud.py:566-573 | deletes all of the customer's rows |
| CartLedger.ClearEffect | src/db/crud.py:566-573 | the customer's listing becomes empty; other customers' rows are untouched |
| Crud.Store.Checkout | src/db/crud.py:581-641 | adds one order with a fresh 6-digit number, appends the lines the loop writes over the aggregated cart, lowers stock accordingly, empties the customer's cart, and keeps the invariant |
| Crud.Store.FreshOno | src/db/crud.py:600-606 | the number is in 100000..999999 and not used by any order |
| Crud.Store.WriteLines | src/db/crud.py:614-635 | the loop appends the committed lines and leaves the committed stock |
| Crud.Store.PlaceOrder | src/db/crud.py:600-635 | the order header and its lines are appended; the catalog and order invariants hold |
| Crud.CheckoutKeepsTables | src/db/crud.py:581-641 | the new order reads back with exactly the written lines, its total is their sum, and the table invariants hold |
| Checkout.CommitNumbersDensely | src/db/crud.py:614-635 | lines carry the order number, are numbered 1, 2, 3, … without gaps, and have positive quantities |
| Checkout.CommitStock | src/db/crud.py:614-635 | each product's stock falls by exactly the quantity written for it; no product appears or vanishes |
| Checkout.CommitKeepsStockNonNegative | src/db/crud.py:614-635 | stock never becomes negative |
| Checkout.CommitKeepsTable | src/db/crud.py:614-635 | the products table keeps its pids and their order |
| Checkout.UnprocessedUntouched | src/db/crud.py:614-635 | a product no cart item names keeps its row |
| Checkout.CommitMatchesYielding | src/db/crud.py:614-635 | line k is the k-th item whose product exists with `min(qty, stock) > 0`, at that quantity and the current price |
| Checkout.EmptyCartNoLines | src/db/crud.py:590-597 | an empty cart writes no lines and touches no stock |
| Crud.Store.ListOrders | src/db/crud.py:644-681 | a page of at most page_size of the customer's orders, newest first; the total is the customer's order count |
| Orders.OrdersPageShape | src/db/crud.py:644-681 | the page holds only the customer's orders, ordered by date descending, no more than page_size; the listing is a permutation of those orders |
| Orders.CustomerOrders | src/db/crud.py:652-667 | exactly the orders of the customer |
| Crud.Store.GetOrderDetail | src/db/crud.py:684-716 | `(None, [])` exactly for an unknown number; otherwise that order with its lines numbered 1, 2, 3, … |
| Orders.KnownOrder | src/db/crud.py:684-716 | a known number gives that order and its lines sorted by line number |
| Orders.DenseOrderLines | src/db/crud.py:697-699 | densely numbered lines come back in table order under `ORDER BY lineNo` |
| Orders.UnknownOrder | src/db/crud.py:684-728 | an unknown number gives `(None, [])` and a total of 0 |
| Crud.Store.ComputeOrderTotal | src/db/crud.py:719-728 | the sum of qty times price over the order's lines, and 0 for an unknown order |
| Orders.TotalOfAppendedOrder | src/db/crud.py:719-728 | a freshly written order totals the sum of its own lines |
| Orders.PlaceOrderKeepsTables | src/db/crud.py:608-635 | appending a fresh order with densely numbered lines keeps the order tables consistent, and the order reads back with its lines |
| Crud.Store.TopProductsByOrders | src/db/crud.py:774-798 | the report of the products by distinct orders; without ties the first k, with ties the prefix down to the k-th count; only ordered products appear |
| Crud.Store.TopProductsByViews | src/db/crud.py:801-825 | the same report over view counts; each row's count is the product's number of views and is positive |
| Ranking.TopKIsReport | src/db/crud.py:789-797 | the report is Python's `rows[:k]` without ties, and with ties a ranking prefix that ends at the k-th row's count and holds at least min(k, n) rows |
| Ranking.TopKWithoutTies | src/db/crud.py:791-792 | without ties the report is `rows[:k]`, with Python's lengths for negative k |
| Ranking.TopKWithTies | src/db/crud.py:793-797 | with ties, the rows with count at least the k-th count form a ranking prefix of at least min(k, n) rows |
| Ranking.TopKTiesSmallK | src/db/crud.py:794-795 | with ties and k < 1 the report is empty |
| Ranking.TopKOfNothing | src/db/crud.py:789-790 | no ranked rows give an empty report |
| Ranking.TiesExtendTopK | src/db/crud.py:789-797 | the tie-inclusive report extends the plain top-k |
| Ranking.OrderCountsRanked | src/db/crud.py:784-786 | the order ranking is sorted by count descending then pid, and lists only ordered products |
| Ranking.ViewCountsRanked | src/db/crud.py:811-813 | the view ranking is sorted by count descending then pid, and each count is the product's positive number of views |
| Ranking.AtLeast | src/db/crud.py:796-797 | exactly the rows whose count reaches the threshold |
| MarkdownTable.GenerateMarkdownTable | src/utils/pure.py:4-47 | no rows give the empty string whatever the headers and alignments; a failure needs rows and given alignments; a table opens with the header line, a newline and the separator line |
| MarkdownTable.FirstRowBecomesHeader | src/utils/pure.py:25-26 | without headers the first row is the header and is not repeated in the body |
| MarkdownTable.FailsIffAlignsMismatch | src/utils/pure.py:31-35 | the call fails iff alignments are given and their count differs from the header's |
| MarkdownTable.DefaultAlignIsCentre | src/utils/pure.py:31-41 | with no alignments every column is `:---:` |
| MarkdownTable.AlignTokens | src/utils/pure.py:37-41 | one token per alignment, `:---`, `:---:` or `---:` |
| MarkdownTable.OutputLines | src/utils/pure.py:43-47 | when no cell holds a newline, the output splits into the header line, the separator line and one line per body row |
| MarkdownTable.SplitOnJoin | src/utils/pure.py:43-47 | joining lines with `\n` and splitting gives them back when no line contains `\n` |

## Left out

- The UI layer (`src/views`), `main.py`, logging and the connection setup in `src/db/database.py` are not part of this model. Each operation is one atomic step: the model has no `async`, no connection, no interleaving between operations, and no rollback on a failed statement.
- Random draws (`random.randint` in `_generate_uid_unique`, `start_session` and `checkout`) are a choice of any value in the same range that is not yet used. The methods require that such a value exists; the Python loops would spin forever when none does.
- Crud.Store.GenerateUid: does not model the preference for 4-digit ids (1000..9999) that `generate_uid` tries first; it promises only an unused id in 1000..999999.
- Prices are integer cents; the source stores floats. Order totals are therefore exact sums, not floating-point sums.
- Dates and times are integers ordered like the timestamps they stand for. `datetime.now()` and `date.today()` are parameters of the methods.
- `weekly_sales_summary` (src/db/crud.py:736-771) is not modelled: it relies on SQLite's `date()` arithmetic and floating-point averages.
- Crud.Store.ListOrders: `list_orders` orders by `odate DESC`, and SQLite leaves the order of same-date orders unspecified. The model's contract fixes tied orders in table order (a stable sort), an order SQLite does not promise; the descending date order, the page bounds and the page's membership are what the source guarantees.
- SQLite's `GROUP BY pid` in `list_cart`, `checkout` and the reports is modelled as ascending pid order, which is what SQLite produces for an integer-keyed group.
- Text handling is ASCII: `lower()`/`LOWER`, `isdigit()` and whitespace follow the ASCII definitions. Non-ASCII case folding and Unicode digits are left out.
- `%` and `_` inside a search term are treated as ordinary characters. The source passes them unescaped to `LIKE`, where they act as wildcards.
- `query`/`keyword` being `None` is not modelled; the callers always pass a string.
- An all-digit sales query makes `mixed_product_search_sales` raise in two cases: `int(phrase)` raises `ValueError` when the phrase has more than 4300 digits, leading zeros included; otherwise sqlite3 raises `OverflowError` when the value does not fit a 64-bit signed integer. These are modelled as the results `Failure(DigitLimitExceeded)` and `Failure(PidTooLarge)`; the propagation of the exception to the UI is not modelled. The limit is CPython's default; a program that changes it with `sys.set_int_max_str_digits` is not modelled.
- Convert.ToInt, Convert.ToIntRejects, Convert.ToIntShowRoundTrip and Convert.ParseNegativeDigits: Python's limit on integer string conversion (`sys.set_int_max_str_digits`, 4300 digits by default) is not modelled. The model reads a literal of any length, whereas `int()` raises `ValueError` beyond 4300 digits (so `_to_int` gives `None`), and `str(n)` raises for such an `n`.
- `_to_int` is modelled for `None`, bools, ints and strings; floats and other objects are left out.
- `generate_markdown_table` cells are strings; Python's `str()` of other cell values and alignment letters other than `l`, `c`, `r` are left out.
- Schema constraints beyond `Store.Valid` (foreign keys from sessions, cart and views to customers and products; `CHECK` constraints) are not modelled: the data layer does not check them itself.
- The database file's persistence and the `searches`/`viewedProduct` rows' later use outside the reports are not modelled.
