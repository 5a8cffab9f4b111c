/** The two product searches of src/db/crud.py.

    `mixed_product_search_sales` (staff) runs staged queries and appends newly seen rows:
    a blank query lists every product; an all-digit query tries the pid first; a query of
    several words takes the whole phrase, then each distinct word; a single word is one
    keyword query.

    `search_products` (customers) builds one list of terms (the phrase, then the distinct
    words), ORs them into a single condition, and returns a page of the pid-ordered union
    with its total count. */
module ProductSearch {
  import opened Wrappers
  import opened Text
  import opened Models
  import opened Catalog
  import opened Paging

  /** The normalised query: `(query or "").strip().lower()`. */
  function Phrase(query: string): string {
    Lower(Strip(query))
  }

  function PidSet(products: seq<Product>): set<int> {
    set p | p in products :: p.pid
  }

  /** `add_rows`: appends, in order, each row whose pid has not been emitted yet. */
  function AddNew(acc: seq<Product>, rows: seq<Product>): seq<Product>
  {
    if rows == [] then acc
    else
      var prev := AddNew(acc, rows[..|rows| - 1]);
      var p := rows[|rows| - 1];
      if p.pid in PidSet(prev) then prev else prev + [p]
  }

  /** The words of `ws` that are not in `seen`, each once, in first-occurrence order. */
  function FreshWords(seen: seq<string>, ws: seq<string>): seq<string>
  {
    if ws == [] then []
    else
      var prev := FreshWords(seen, ws[..|ws| - 1]);
      var w := ws[|ws| - 1];
      if w in seen || w in ws[..|ws| - 1] then prev else prev + [w]
  }

  /** One staged query per term, each appending its newly seen matches. */
  function Staged(acc: seq<Product>, catalog: seq<Product>, terms: seq<string>): seq<Product>
  {
    if terms == [] then acc
    else AddNew(Staged(acc, catalog, terms[..|terms| - 1]), Matching(catalog, terms[|terms| - 1]))
  }

  /** `WHERE pid = ? ORDER BY pid`. */
  function WithPid(products: seq<Product>, pid: int): (r: seq<Product>)
    ensures forall p :: p in r <==> p in products && p.pid == pid
    ensures (forall p :: p in products ==> p.pid != pid) ==> r == []
  {
    if products == [] then []
    else (if products[0].pid == pid then [products[0]] else []) + WithPid(products[1..], pid)
  }

  /** What `mixed_product_search_sales(query)` returns for a catalog listed in pid order. */
  function MixedSearchResult(catalog: seq<Product>, query: string): seq<Product>
  {
    var phrase := Phrase(query);
    if phrase == [] then catalog
    else if IsDigits(phrase) then
      var exact := WithPid(catalog, DigitsValue(phrase));
      var found := AddNew([], exact);
      if exact == [] then AddNew(found, Matching(catalog, phrase)) else found
    else
      var words := Split(phrase);
      if |words| > 1 then Staged(AddNew([], Matching(catalog, phrase)), catalog, FreshWords([], words))
      else Matching(catalog, phrase)
  }

  /** The largest value an SQLite INTEGER holds. Binding a larger Python int as a
      parameter raises `OverflowError`. */
  const SQLITE_INT_MAX: int := 0x7FFF_FFFF_FFFF_FFFF

  /** CPython's default limit on the digits `int()` reads from a string
      (`sys.get_int_max_str_digits()`); a longer literal raises `ValueError`. */
  const INT_MAX_STR_DIGITS: nat := 4300

  /** The exceptions that escape `mixed_product_search_sales` for an all-digit phrase:
      `int(phrase)`'s own `ValueError` when the phrase has more digits than the limit
      (leading zeros count), else sqlite3's `OverflowError` when the number is too large
      to bind as the pid parameter. */
  datatype SearchError = DigitLimitExceeded | PidTooLarge

  /** The query is all digits and has more digits than `int()` reads. */
  predicate DigitLimitHit(query: string) {
    var phrase := Phrase(query);
    IsDigits(phrase) && |phrase| > INT_MAX_STR_DIGITS
  }

  /** The query is all digits and either `int()` refuses it or SQLite cannot bind its value. */
  predicate PidOverflows(query: string) {
    var phrase := Phrase(query);
    IsDigits(phrase) && (|phrase| > INT_MAX_STR_DIGITS || DigitsValue(phrase) > SQLITE_INT_MAX)
  }

  /** Pid queries of up to 18 digits always bind: only a longer number can overflow. */
  lemma ShortQueriesNeverOverflow(query: string)
    requires |Strip(query)| <= 18
    ensures !PidOverflows(query)
  {
    var phrase := Phrase(query);
    if IsDigits(phrase) {
      DigitsValueBelow(phrase);
      Pow10Monotone(|phrase|, 18);
      Pow10Of18();
    }
  }

  /** `n` nines. */
  function Nines(n: nat): (s: string)
    ensures |s| == n && forall i :: 0 <= i < n ==> s[i] == '9'
  {
    seq(n, _ => '9')
  }

  lemma {:induction false} NinesValue(n: nat)
    ensures DigitsValue(Nines(n)) == Pow10(n) - 1
  {
    if n > 0 {
      assert Nines(n)[..n - 1] == Nines(n - 1);
      NinesValue(n - 1);
    }
  }

  /** `n` zeros. */
  function Zeros(n: nat): (s: string)
    ensures |s| == n && forall i :: 0 <= i < n ==> s[i] == '0'
  {
    seq(n, _ => '0')
  }

  lemma {:induction false} ZerosValue(n: nat)
    ensures DigitsValue(Zeros(n)) == 0
  {
    if n > 0 {
      assert Zeros(n)[..n - 1] == Zeros(n - 1);
      ZerosValue(n - 1);
    }
  }

  /** The digit limit fails on length, not value: `"0" * n + "7"` names pid 7, yet with
      more than 4300 digits `int()` refuses it and the search fails. */
  lemma ZeroPaddedPidFails(n: nat)
    requires n >= INT_MAX_STR_DIGITS
    ensures var q := Zeros(n) + "7";
            IsDigits(q) && DigitsValue(q) == 7 && DigitLimitHit(q) && PidOverflows(q)
  {
    var q := Zeros(n) + "7";
    assert IsDigits(q) by {
      forall i | 0 <= i < |q| ensures IsDigit(q[i]) {
        if i < n { assert q[i] == Zeros(n)[i]; }
      }
    }
    DigitsArePhrase(q);
    assert q[..|q| - 1] == Zeros(n);
    ZerosValue(n);
  }

  /** A digit string is its own phrase: it has no padding to strip and nothing to lower. */
  lemma DigitsArePhrase(q: string)
    requires IsDigits(q)
    ensures Phrase(q) == q
  {
    assert !IsSpace(q[0]) && !IsSpace(q[|q| - 1]);
    assert TrimStart(q) == q;
    assert TrimEnd(q) == q;
    assert Lower(q) == q;
  }

  /** The overflow is real: a query of 19 or more nines is all digits and too large to bind. */
  lemma LongNinesOverflow(n: nat)
    requires n >= 19
    ensures PidOverflows(Nines(n))
  {
    var q := Nines(n);
    assert TrimStart(q) == q;
    assert Strip(q) == q;
    assert Lower(q) == q;
    NinesValue(n);
    Pow10Monotone(19, n);
    Pow10Of18();
    Pow10Add(18, 1);
  }

  /** The terms `search_products` ORs together: none for a blank query, the phrase for one
      word, else the phrase followed by each distinct word other than the phrase. */
  function SearchTerms(phrase: string): seq<string>
  {
    if phrase == [] then []
    else
      var words := Split(phrase);
      if |words| > 1 then [phrase] + FreshWords([phrase], words) else [phrase]
  }

  // ---------------------------------------------------------------------------
  // The loops of the two searches
  // ---------------------------------------------------------------------------

  /** `add_rows`, as the loop the source runs over `results` and `seen`. */
  method AddRows(results: seq<Product>, seen: set<int>, rows: seq<Product>)
    returns (results': seq<Product>, seen': set<int>)
    requires seen == PidSet(results)
    ensures results' == AddNew(results, rows)
    ensures seen' == PidSet(results')
  {
    results', seen' := results, seen;
    for i := 0 to |rows|
      invariant results' == AddNew(results, rows[..i])
      invariant seen' == PidSet(results')
    {
      assert rows[..i + 1][..i] == rows[..i];
      var p := rows[i];
      if p.pid !in seen' {
        seen' := seen' + {p.pid};
        results' := results' + [p];
      }
    }
    assert rows[..|rows|] == rows;
  }

  /** The term-building loop of `search_products`. */
  method BuildTerms(phrase: string) returns (terms: seq<string>)
    ensures terms == SearchTerms(phrase)
  {
    var words := Split(phrase);
    if phrase == [] {
      terms := [];
    } else if |words| > 1 {
      terms := [phrase];
      var seen: set<string> := {phrase};
      for i := 0 to |words|
        invariant terms == [phrase] + FreshWords([phrase], words[..i])
        invariant forall x :: x in seen <==> x == phrase || x in words[..i]
      {
        var w := words[i];
        assert words[..i + 1] == words[..i] + [w];
        FreshWordsSnoc([phrase], words[..i], w);
        if w !in seen {
          terms := terms + [w];
          seen := seen + {w};
        }
      }
      assert words[..|words|] == words;
    } else {
      terms := [phrase];
    }
  }

  // ---------------------------------------------------------------------------
  // Properties of the building blocks
  // ---------------------------------------------------------------------------

  predicate NoDuplicates<T(==)>(s: seq<T>) {
    forall i, j :: 0 <= i < j < |s| ==> s[i] != s[j]
  }

  /** One more word: kept when it is neither seen nor already among the words. */
  lemma FreshWordsSnoc(seen: seq<string>, ws: seq<string>, w: string)
    ensures FreshWords(seen, ws + [w]) ==
            if w in seen || w in ws then FreshWords(seen, ws) else FreshWords(seen, ws) + [w]
  {
    assert (ws + [w])[..|ws|] == ws;
  }

  /** Rows already emitted stay first and in place. */
  lemma {:induction false} AddNewExtends(acc: seq<Product>, rows: seq<Product>)
    ensures |acc| <= |AddNew(acc, rows)| && AddNew(acc, rows)[..|acc|] == acc
  {
    if rows != [] {
      AddNewExtends(acc, rows[..|rows| - 1]);
    }
  }

  /** Emitted rows never repeat a pid. */
  lemma {:induction false} AddNewDistinct(acc: seq<Product>, rows: seq<Product>)
    requires DistinctPids(acc)
    ensures DistinctPids(AddNew(acc, rows))
  {
    if rows != [] {
      AddNewDistinct(acc, rows[..|rows| - 1]);
      var prev := AddNew(acc, rows[..|rows| - 1]);
      var p := rows[|rows| - 1];
      if p.pid !in PidSet(prev) {
        forall i | 0 <= i < |prev| ensures prev[i].pid != p.pid {
          assert prev[i] in prev;
        }
      }
    }
  }

  /** Every emitted row was already emitted or is one of the new rows. */
  lemma {:induction false} AddNewWithin(acc: seq<Product>, rows: seq<Product>)
    ensures forall q :: q in AddNew(acc, rows) ==> q in acc || q in rows
  {
    if rows != [] {
      AddNewWithin(acc, rows[..|rows| - 1]);
    }
  }

  /** With distinct pids, the last row's pid is carried by no earlier row. */
  lemma LastPidIsNew(rows: seq<Product>)
    requires DistinctPids(rows) && rows != []
    ensures forall q :: q in rows[..|rows| - 1] ==> q.pid != rows[|rows| - 1].pid
  {
    forall q | q in rows[..|rows| - 1] ensures q.pid != rows[|rows| - 1].pid {
      var j :| 0 <= j < |rows| - 1 && rows[j] == q;
    }
  }

  lemma PidsOfPrefix(acc: seq<Product>, longer: seq<Product>)
    requires |acc| <= |longer| && longer[..|acc|] == acc
    ensures PidSet(acc) <= PidSet(longer)
  {
    forall q | q in acc ensures q in longer {
      var j :| 0 <= j < |acc| && acc[j] == q;
      assert longer[j] == q;
    }
  }

  /** A row ends up emitted when it was already emitted or when it is a row whose pid was new. */
  lemma {:induction false} AddNewMembers(acc: seq<Product>, rows: seq<Product>, p: Product)
    requires DistinctPids(rows)
    ensures p in AddNew(acc, rows) <==> p in acc || (p in rows && p.pid !in PidSet(acc))
  {
    if rows != [] {
      var init := rows[..|rows| - 1];
      var last := rows[|rows| - 1];
      assert DistinctPids(init);
      AddNewMembers(acc, init, p);
      var prev := AddNew(acc, init);
      assert rows == init + [last];
      LastPidIsNew(rows);
      if last.pid in PidSet(prev) {
        // The pid was emitted before, and not by an earlier row, so by `acc` itself.
        var q :| q in prev && q.pid == last.pid;
        AddNewWithin(acc, init);
        assert q in acc;
      } else {
        AddNewExtends(acc, init);
        PidsOfPrefix(acc, prev);
      }
    }
  }

  /** Appending rows that all carry new, distinct pids appends them unchanged. */
  lemma {:induction false} AddNewFresh(acc: seq<Product>, rows: seq<Product>)
    requires DistinctPids(rows)
    requires forall p :: p in rows ==> p.pid !in PidSet(acc)
    ensures AddNew(acc, rows) == acc + rows
  {
    if rows != [] {
      var init := rows[..|rows| - 1];
      var last := rows[|rows| - 1];
      assert DistinctPids(init);
      AddNewFresh(acc, init);
      LastPidIsNew(rows);
      assert last.pid !in PidSet(acc);
      assert forall q :: q in acc + init ==> q.pid != last.pid;
      assert acc + init + [last] == acc + rows;
    }
  }

  lemma {:induction false} FreshWordsMembers(seen: seq<string>, ws: seq<string>, w: string)
    ensures w in FreshWords(seen, ws) <==> w in ws && w !in seen
  {
    if ws != [] {
      var init := ws[..|ws| - 1];
      FreshWordsMembers(seen, init, w);
      assert ws == init + [ws[|ws| - 1]];
    }
  }

  lemma {:induction false} FreshWordsDistinct(seen: seq<string>, ws: seq<string>)
    ensures NoDuplicates(FreshWords(seen, ws))
  {
    if ws != [] {
      var init := ws[..|ws| - 1];
      FreshWordsDistinct(seen, init);
      var prev := FreshWords(seen, init);
      var w := ws[|ws| - 1];
      if !(w in seen || w in init) {
        FreshWordsMembers(seen, init, w);
      }
    }
  }

  /** Words the seen list cannot contain are all kept: in a multi-word query the phrase holds
      a space, so excluding it removes no word. */
  lemma {:induction false} FreshWordsIgnoresNonWord(phrase: string, ws: seq<string>)
    requires forall i :: 0 <= i < |ws| ==> ws[i] != phrase
    ensures FreshWords([phrase], ws) == FreshWords([], ws)
  {
    if ws != [] {
      FreshWordsIgnoresNonWord(phrase, ws[..|ws| - 1]);
      assert ws[|ws| - 1] !in [phrase];
    }
  }

  /** Staged queries keep what was emitted before them in front. */
  lemma {:induction false} StagedExtends(acc: seq<Product>, catalog: seq<Product>, terms: seq<string>)
    ensures |acc| <= |Staged(acc, catalog, terms)| && Staged(acc, catalog, terms)[..|acc|] == acc
  {
    if terms != [] {
      var init := terms[..|terms| - 1];
      StagedExtends(acc, catalog, init);
      var prev := Staged(acc, catalog, init);
      AddNewExtends(prev, Matching(catalog, terms[|terms| - 1]));
    }
  }

  lemma {:induction false} StagedDistinct(acc: seq<Product>, catalog: seq<Product>, terms: seq<string>)
    requires DistinctPids(acc)
    ensures DistinctPids(Staged(acc, catalog, terms))
  {
    if terms != [] {
      StagedDistinct(acc, catalog, terms[..|terms| - 1]);
      AddNewDistinct(Staged(acc, catalog, terms[..|terms| - 1]), Matching(catalog, terms[|terms| - 1]));
    }
  }

  /** Staged queries only ever emit catalog rows. */
  lemma {:induction false} StagedWithin(acc: seq<Product>, catalog: seq<Product>, terms: seq<string>)
    requires forall q :: q in acc ==> q in catalog
    ensures forall q :: q in Staged(acc, catalog, terms) ==> q in catalog
  {
    if terms != [] {
      var init := terms[..|terms| - 1];
      StagedWithin(acc, catalog, init);
      AddNewWithin(Staged(acc, catalog, init), Matching(catalog, terms[|terms| - 1]));
    }
  }

  lemma MatchesAnySnoc(p: Product, init: seq<string>, t: string)
    ensures MatchesAny(p, init + [t]) <==> MatchesAny(p, init) || Matches(p, t)
  {
    if MatchesAny(p, init) {
      var u :| u in init && Matches(p, u);
      assert u in init + [t];
    }
    if Matches(p, t) {
      assert t in init + [t];
    }
    if MatchesAny(p, init + [t]) {
      var u :| u in init + [t] && Matches(p, u);
      if u != t {
        assert u in init;
      }
    }
  }

  /** In a pid-ordered table a pid names one row. */
  lemma PidDeterminesRow(catalog: seq<Product>, p: Product, q: Product)
    requires PidOrdered(catalog) && p in catalog && q in catalog
    ensures p.pid == q.pid ==> p == q
  {
    var i :| 0 <= i < |catalog| && catalog[i] == p;
    var j :| 0 <= j < |catalog| && catalog[j] == q;
    assert p.pid == q.pid ==> i == j;
  }

  /** Over a pid-ordered catalog, and starting from rows of that catalog, the staged result
      holds exactly the starting rows and the catalog rows that match some term. */
  lemma {:induction false} StagedMembers(acc: seq<Product>, catalog: seq<Product>, terms: seq<string>, p: Product)
    requires PidOrdered(catalog)
    requires forall q :: q in acc ==> q in catalog
    ensures p in Staged(acc, catalog, terms) <==> p in acc || (p in catalog && MatchesAny(p, terms))
  {
    if terms != [] {
      var init := terms[..|terms| - 1];
      var t := terms[|terms| - 1];
      assert terms == init + [t];
      MatchesAnySnoc(p, init, t);
      assert MatchesAny(p, terms) <==> MatchesAny(p, init) || Matches(p, t);
      StagedMembers(acc, catalog, init, p);
      StagedWithin(acc, catalog, init);
      var prev := Staged(acc, catalog, init);
      assert Staged(acc, catalog, terms) == AddNew(prev, Matching(catalog, t));
      StageMembers(prev, catalog, t, p);
    }
  }

  /** One stage adds exactly the catalog rows that match its term and are not yet emitted. */
  lemma StageMembers(prev: seq<Product>, catalog: seq<Product>, t: string, p: Product)
    requires PidOrdered(catalog)
    requires forall q :: q in prev ==> q in catalog
    ensures p in AddNew(prev, Matching(catalog, t)) <==> p in prev || (p in catalog && Matches(p, t))
  {
    var rows := Matching(catalog, t);
    MatchingKeepsOrder(catalog, t);
    AddNewMembers(prev, rows, p);
    if p in rows && p !in prev {
      // No emitted row shares p's pid: in this catalog that row would be p itself.
      forall q | q in prev ensures q.pid != p.pid {
        PidDeterminesRow(catalog, p, q);
      }
    }
  }

  // ---------------------------------------------------------------------------
  // Properties of mixed_product_search_sales
  // ---------------------------------------------------------------------------

  /** A blank query (whitespace only) lists the whole catalog in pid order. */
  lemma MixedBlankListsAll(catalog: seq<Product>, query: string)
    requires Strip(query) == []
    ensures MixedSearchResult(catalog, query) == catalog
  {
  }

  /** With distinct pids, the pid filter is the single row that has the pid. */
  lemma {:induction false} WithPidOfRow(catalog: seq<Product>, p: Product)
    requires PidOrdered(catalog)
    requires p in catalog
    ensures WithPid(catalog, p.pid) == [p]
  {
    if catalog[0] == p {
      assert forall q :: q in catalog[1..] ==> q.pid != p.pid;
    } else {
      WithPidOfRow(catalog[1..], p);
    }
  }

  /** An all-digit query naming an existing pid returns exactly that product: no keyword fallback. */
  lemma MixedExactPidWins(catalog: seq<Product>, query: string, p: Product)
    requires PidOrdered(catalog)
    requires IsDigits(Phrase(query)) && p in catalog && p.pid == DigitsValue(Phrase(query))
    ensures MixedSearchResult(catalog, query) == [p]
  {
    WithPidOfRow(catalog, p);
    AddNewFresh([], [p]);
  }

  /** An all-digit query that names no pid falls back to the keyword filter on the digits. */
  lemma MixedDigitsFallBack(catalog: seq<Product>, query: string)
    requires PidOrdered(catalog)
    requires IsDigits(Phrase(query))
    requires forall p :: p in catalog ==> p.pid != DigitsValue(Phrase(query))
    ensures MixedSearchResult(catalog, query) == Matching(catalog, Phrase(query))
  {
    MatchingKeepsOrder(catalog, Phrase(query));
    AddNewFresh([], Matching(catalog, Phrase(query)));
  }

  /** A single non-digit word is one keyword query, and gives the same list as the customer
      search's single term. */
  lemma MixedSingleWord(catalog: seq<Product>, query: string)
    requires Phrase(query) != [] && !IsDigits(Phrase(query)) && |Split(Phrase(query))| <= 1
    ensures MixedSearchResult(catalog, query) == Matching(catalog, Phrase(query))
    ensures MixedSearchResult(catalog, query) == MatchingAny(catalog, SearchTerms(Phrase(query)))
  {
    MatchingAnySingle(catalog, Phrase(query));
  }

  /** A phrase that splits into several words is neither blank, nor all digits, nor one of
      its words. */
  lemma {:induction false} MultiWordPhrase(phrase: string)
    requires |Split(phrase)| > 1
    ensures phrase != [] && !IsDigits(phrase) && phrase !in Split(phrase)
  {
    assert Split([]) == [];
    assert IsDigits(phrase) ==> IsWord(phrase) by {
      if IsDigits(phrase) {
        forall i | 0 <= i < |phrase| ensures !IsSpace(phrase[i]) {
          assert IsDigit(phrase[i]);
        }
      }
    }
    assert phrase in Split(phrase) ==> IsWord(phrase);
    if IsWord(phrase) {
      SplitWord(phrase);
    }
  }

  /** A query of several words runs the phrase query, then one query per distinct word. */
  lemma MixedMultiWordIsStaged(catalog: seq<Product>, query: string)
    requires PidOrdered(catalog)
    requires |Split(Phrase(query))| > 1
    ensures MixedSearchResult(catalog, query) ==
            Staged(Matching(catalog, Phrase(query)), catalog, FreshWords([], Split(Phrase(query))))
  {
    var phrase := Phrase(query);
    var words := Split(phrase);
    MultiWordPhrase(phrase);
    MatchingKeepsOrder(catalog, phrase);
    AddNewFresh([], Matching(catalog, phrase));
    assert AddNew([], Matching(catalog, phrase)) == Matching(catalog, phrase);
    assert MixedSearchResult(catalog, query) ==
           Staged(AddNew([], Matching(catalog, phrase)), catalog, FreshWords([], words));
  }

  /** A query of several words: the phrase matches come first, in pid order; then come the
      rows matching some word and not emitted before; each product appears at most once, and
      a product appears exactly when it matches the phrase or one of the words. */
  lemma MixedMultiWord(catalog: seq<Product>, query: string, p: Product)
    requires PidOrdered(catalog)
    requires |Split(Phrase(query))| > 1
    ensures var r := MixedSearchResult(catalog, query);
            var phraseRows := Matching(catalog, Phrase(query));
            && |phraseRows| <= |r| && r[..|phraseRows|] == phraseRows
            && DistinctPids(r)
            && (p in r <==> p in catalog && (Matches(p, Phrase(query)) || MatchesAny(p, Split(Phrase(query)))))
  {
    var phrase := Phrase(query);
    var words := Split(phrase);
    var phraseRows := Matching(catalog, phrase);
    var terms := FreshWords([], words);
    MixedMultiWordIsStaged(catalog, query);
    MatchingKeepsOrder(catalog, phrase);
    StagedExtends(phraseRows, catalog, terms);
    StagedDistinct(phraseRows, catalog, terms);
    StagedMembers(phraseRows, catalog, terms, p);
    FreshWordsSameMatches(p, words);
  }

  /** Dropping repeated words does not change which products some word matches. */
  lemma FreshWordsSameMatches(p: Product, words: seq<string>)
    ensures MatchesAny(p, FreshWords([], words)) <==> MatchesAny(p, words)
  {
    if MatchesAny(p, FreshWords([], words)) {
      var t :| t in FreshWords([], words) && Matches(p, t);
      FreshWordsMembers([], words, t);
    }
    if MatchesAny(p, words) {
      var t :| t in words && Matches(p, t);
      FreshWordsMembers([], words, t);
    }
  }

  /** Every staff search result lists each product at most once. */
  lemma MixedNoDuplicates(catalog: seq<Product>, query: string)
    requires PidOrdered(catalog)
    ensures DistinctPids(MixedSearchResult(catalog, query))
  {
    var phrase := Phrase(query);
    if phrase != [] && IsDigits(phrase) {
      var exact := WithPid(catalog, DigitsValue(phrase));
      AddNewDistinct([], exact);
      AddNewDistinct(AddNew([], exact), Matching(catalog, phrase));
    } else if phrase != [] && |Split(phrase)| > 1 {
      MixedMultiWord(catalog, query, Product(0, [], [], 0, 0, []));
    } else if phrase != [] {
      MatchingKeepsOrder(catalog, phrase);
    }
  }

  /** For a multi-word query the staff search and the customer search find the same
      products; only their order differs. */
  lemma MixedAgreesWithCustomerTerms(catalog: seq<Product>, query: string, p: Product)
    requires PidOrdered(catalog)
    requires |Split(Phrase(query))| > 1
    ensures p in MixedSearchResult(catalog, query) <==> p in MatchingAny(catalog, SearchTerms(Phrase(query)))
  {
    var phrase := Phrase(query);
    var words := Split(phrase);
    MixedMultiWord(catalog, query, p);
    MultiWordPhrase(phrase);
    TermsOfMultiWord(phrase);
    FreshWordsSameMatches(p, words);
    MatchesAnyCons(p, phrase, FreshWords([], words));
  }

  lemma MatchesAnyCons(p: Product, t: string, rest: seq<string>)
    ensures MatchesAny(p, [t] + rest) <==> Matches(p, t) || MatchesAny(p, rest)
  {
    if MatchesAny(p, rest) {
      var u :| u in rest && Matches(p, u);
      assert u in [t] + rest;
    }
    if Matches(p, t) {
      assert t in [t] + rest;
    }
    if MatchesAny(p, [t] + rest) {
      var u :| u in [t] + rest && Matches(p, u);
      if u != t {
        assert u in rest;
      }
    }
  }

  // ---------------------------------------------------------------------------
  // Properties of search_products
  // ---------------------------------------------------------------------------

  /** A blank query has no terms, so its condition `1 = 0` matches nothing. */
  lemma TermsOfBlank(catalog: seq<Product>, query: string)
    requires Strip(query) == []
    ensures SearchTerms(Phrase(query)) == []
    ensures MatchingAny(catalog, SearchTerms(Phrase(query))) == []
  {
    assert Phrase(query) == [];
    NothingMatchesNoTerms(catalog);
  }

  lemma {:induction false} NothingMatchesNoTerms(catalog: seq<Product>)
    ensures MatchingAny(catalog, []) == []
  {
    if catalog != [] {
      NothingMatchesNoTerms(catalog[1..]);
    }
  }

  /** A multi-word query searches the phrase and then each distinct word once. */
  lemma TermsOfMultiWord(phrase: string)
    requires |Split(phrase)| > 1
    ensures SearchTerms(phrase) == [phrase] + FreshWords([], Split(phrase))
  {
    var words := Split(phrase);
    MultiWordPhrase(phrase);
    forall i | 0 <= i < |words| ensures words[i] != phrase {
      assert words[i] in words;
    }
    FreshWordsIgnoresNonWord(phrase, words);
  }

  lemma ConsNoDuplicates<T>(x: T, rest: seq<T>)
    requires NoDuplicates(rest) && x !in rest
    ensures NoDuplicates([x] + rest)
  {
    var s := [x] + rest;
    forall i, j | 0 <= i < j < |s| ensures s[i] != s[j] {
      assert s[j] == rest[j - 1];
      if i > 0 {
        assert s[i] == rest[i - 1];
      }
    }
  }

  /** No term is searched twice. */
  lemma TermsDistinct(phrase: string)
    ensures NoDuplicates(SearchTerms(phrase))
  {
    var words := Split(phrase);
    if phrase != [] && |words| > 1 {
      FreshWordsDistinct([phrase], words);
      FreshWordsMembers([phrase], words, phrase);
      ConsNoDuplicates(phrase, FreshWords([phrase], words));
    }
  }

  /** A page of pid-ordered rows is pid-ordered and holds only rows of the full result. */
  lemma PageIsOrderedSlice(rows: seq<Product>, limit: int, offset: int)
    requires PidOrdered(rows)
    ensures PidOrdered(SqlPage(rows, limit, offset))
    ensures forall q :: q in SqlPage(rows, limit, offset) ==> q in rows
  {
    var page := SqlPage(rows, limit, offset);
    var start := PageStart(|rows|, offset);
    forall q | q in page ensures q in rows {
      var i :| 0 <= i < |page| && page[i] == q;
      assert rows[start + i] == q;
    }
  }

  /** `search_products` without its log write: a page of the pid-ordered products that
      match any of the terms, and the number of all such products. */
  function CustomerSearch(catalog: seq<Product>, keyword: string, page: int, pageSize: int): (seq<Product>, int) {
    var matches := MatchingAny(catalog, SearchTerms(Phrase(keyword)));
    (SqlPage(matches, pageSize, PageOffset(page, pageSize)), |matches|)
  }

  /** A page holds products of the catalog that match a term, in pid order and at most
      `page_size` of them; the total counts the matches, so it is at most the catalog's size. */
  lemma CustomerSearchPage(catalog: seq<Product>, keyword: string, page: int, pageSize: int)
    requires PidOrdered(catalog)
    ensures var rows := CustomerSearch(catalog, keyword, page, pageSize).0;
            && PidOrdered(rows)
            && (forall p :: p in rows ==> p in catalog && MatchesAny(p, SearchTerms(Phrase(keyword))))
            && (pageSize >= 0 ==> |rows| <= pageSize)
    ensures 0 <= CustomerSearch(catalog, keyword, page, pageSize).1 <= |catalog|
  {
    var terms := SearchTerms(Phrase(keyword));
    var matches := MatchingAny(catalog, terms);
    MatchingAnyKeepsOrder(catalog, terms);
    PageIsOrderedSlice(matches, pageSize, PageOffset(page, pageSize));
    MatchingAnyWithin(catalog, terms);
  }

  /** A blank keyword finds nothing. */
  lemma BlankSearchFindsNothing(catalog: seq<Product>, keyword: string, page: int, pageSize: int)
    requires Strip(keyword) == []
    ensures CustomerSearch(catalog, keyword, page, pageSize) == ([], 0)
  {
    TermsOfBlank(catalog, keyword);
  }

  /** Pages 1 and 2 together are the first two pages' worth of matches. */
  lemma SearchPagesAdjoin(catalog: seq<Product>, keyword: string, pageSize: nat)
    ensures CustomerSearch(catalog, keyword, 1, pageSize).0 + CustomerSearch(catalog, keyword, 2, pageSize).0 ==
            SqlPage(MatchingAny(catalog, SearchTerms(Phrase(keyword))), 2 * pageSize, 0)
  {
    FirstTwoPages(MatchingAny(catalog, SearchTerms(Phrase(keyword))), pageSize);
  }

  lemma {:induction false} MatchingAnyWithin(catalog: seq<Product>, terms: seq<string>)
    ensures |MatchingAny(catalog, terms)| <= |catalog|
  {
    if catalog != [] {
      MatchingAnyWithin(catalog[1..], terms);
    }
  }
}
