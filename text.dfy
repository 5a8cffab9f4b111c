/** The ASCII string operations the store applies to queries and product text:
    Python's `strip()`, `split()`, `lower()`, `isdigit()` and `sep.join()`,
    and the substring test behind SQL's `LIKE '%term%'`. */
module Text {

  /** Python's `str.isspace` on ASCII: tab, line feed, vertical tab, form feed,
      carriage return, the separators 0x1C to 0x1F, and space. */
  predicate IsSpace(c: char) {
    c == ' ' || 9 <= c as int <= 13 || 28 <= c as int <= 31
  }

  predicate IsDigit(c: char) {
    '0' <= c <= '9'
  }

  predicate IsUpper(c: char) {
    'A' <= c <= 'Z'
  }

  function LowerChar(c: char): char {
    if IsUpper(c) then (c as int + 32) as char else c
  }

  /** ASCII case folding, as Python's `lower()` and SQLite's `LOWER` do on ASCII text. */
  function Lower(s: string): string {
    seq(|s|, i requires 0 <= i < |s| => LowerChar(s[i]))
  }

  lemma LowerHasNoUpper(s: string)
    ensures |Lower(s)| == |s|
    ensures forall i :: 0 <= i < |s| ==> !IsUpper(Lower(s)[i])
  {
  }

  lemma LowerIdempotent(s: string)
    ensures Lower(Lower(s)) == Lower(s)
  {
  }

  /** Lowering never turns a space into a non-space or back. */
  lemma LowerKeepsSpaces(s: string)
    ensures forall i :: 0 <= i < |s| ==> (IsSpace(Lower(s)[i]) <==> IsSpace(s[i]))
  {
  }

  /** `s` with its leading whitespace removed (`lstrip()`). */
  function TrimStart(s: string): (r: string)
    ensures |r| <= |s| && r == s[|s| - |r|..]
    ensures r == [] || !IsSpace(r[0])
    ensures forall i :: 0 <= i < |s| - |r| ==> IsSpace(s[i])
  {
    if s != [] && IsSpace(s[0]) then TrimStart(s[1..]) else s
  }

  /** `s` with its trailing whitespace removed (`rstrip()`). */
  function TrimEnd(s: string): (r: string)
    ensures |r| <= |s| && r == s[..|r|]
    ensures r == [] || !IsSpace(r[|r| - 1])
    ensures forall i :: |r| <= i < |s| ==> IsSpace(s[i])
  {
    if s != [] && IsSpace(s[|s| - 1]) then TrimEnd(s[..|s| - 1]) else s
  }

  /** Python's `str.strip()`: the slice of `s` between its leading and its trailing whitespace. */
  function Strip(s: string): string {
    TrimEnd(TrimStart(s))
  }

  /** `strip()` keeps one contiguous piece of its input, with no whitespace at either end
      and nothing but whitespace around it. */
  lemma StripIsTrimmedSlice(s: string)
    ensures Strip(s) == [] || (!IsSpace(Strip(s)[0]) && !IsSpace(Strip(s)[|Strip(s)| - 1]))
    ensures exists i :: StrippedAt(s, Strip(s), i)
  {
    var t := TrimStart(s);
    if Strip(s) != [] {
      assert Strip(s)[0] == t[0];
    }
    PrefixOfSuffix(s, t, Strip(s));
  }

  /** A prefix of a suffix of `s` sits in `s` at the suffix's offset. */
  lemma PrefixOfSuffix(s: string, t: string, r: string)
    requires |t| <= |s| && t == s[|s| - |t|..]
    requires |r| <= |t| && r == t[..|r|]
    requires forall k :: 0 <= k < |s| - |t| ==> IsSpace(s[k])
    requires forall k :: |r| <= k < |t| ==> IsSpace(t[k])
    ensures StrippedAt(s, r, |s| - |t|)
  {
    var i := |s| - |t|;
    assert r == s[i..i + |r|];
    forall k | i + |r| <= k < |s| ensures IsSpace(s[k]) {
      assert s[k] == t[k - i];
    }
  }

  /** `r` is the piece of `s` at offset `i`, and only whitespace lies around it. */
  predicate StrippedAt(s: string, r: string, i: int) {
    && 0 <= i <= |s| - |r|
    && r == s[i..i + |r|]
    && (forall k :: 0 <= k < i ==> IsSpace(s[k]))
    && (forall k :: i + |r| <= k < |s| ==> IsSpace(s[k]))
  }

  /** Whitespace only (the empty string included). */
  predicate IsBlank(s: string) {
    forall i :: 0 <= i < |s| ==> IsSpace(s[i])
  }

  lemma {:induction false} TrimStartBlankPrefix(p: string, x: string)
    requires IsBlank(p)
    ensures TrimStart(p + x) == TrimStart(x)
  {
    if p == [] {
      assert p + x == x;
    } else {
      assert (p + x)[0] == p[0];
      assert (p + x)[1..] == p[1..] + x;
      TrimStartBlankPrefix(p[1..], x);
    }
  }

  lemma {:induction false} TrimEndBlankSuffix(x: string, q: string)
    requires IsBlank(q)
    ensures TrimEnd(x + q) == TrimEnd(x)
  {
    if q == [] {
      assert x + q == x;
    } else {
      var y := x + q;
      assert y[|y| - 1] == q[|q| - 1];
      assert y[..|y| - 1] == x + q[..|q| - 1];
      TrimEndBlankSuffix(x, q[..|q| - 1]);
    }
  }

  lemma {:induction false} StripBlankSuffix(s: string, q: string)
    requires IsBlank(q)
    ensures TrimEnd(TrimStart(s + q)) == TrimEnd(TrimStart(s))
  {
    if s == [] {
      assert s + q == q && q + [] == q;
      TrimStartBlankPrefix(q, []);
    } else if IsSpace(s[0]) {
      assert (s + q)[0] == s[0];
      assert (s + q)[1..] == s[1..] + q;
      StripBlankSuffix(s[1..], q);
    } else {
      assert (s + q)[0] == s[0];
      TrimEndBlankSuffix(s, q);
    }
  }

  /** `(p + s + q).strip() == s.strip()` for whitespace-only `p` and `q`. */
  lemma StripPadded(p: string, s: string, q: string)
    requires IsBlank(p) && IsBlank(q)
    ensures Strip(p + s + q) == Strip(s)
  {
    assert p + s + q == p + (s + q);
    TrimStartBlankPrefix(p, s + q);
    StripBlankSuffix(s, q);
  }

  /** A word as `split()` produces it: non-empty, no whitespace. */
  predicate IsWord(w: string) {
    w != [] && forall i :: 0 <= i < |w| ==> !IsSpace(w[i])
  }

  /** Length of the run of non-space characters that starts `s`. */
  function WordLength(s: string): (n: nat)
    ensures n <= |s|
    ensures forall i :: 0 <= i < n ==> !IsSpace(s[i])
    ensures n == |s| || IsSpace(s[n])
  {
    if s == [] || IsSpace(s[0]) then 0 else 1 + WordLength(s[1..])
  }

  /** Python's `str.split()` with no separator: the maximal runs of non-space characters, in order. */
  function Split(s: string): (words: seq<string>)
    ensures forall w :: w in words ==> IsWord(w)
    decreases |s|
  {
    var t := TrimStart(s);
    if t == [] then []
    else
      var n := WordLength(t);
      [t[..n]] + Split(t[n..])
  }

  /** Python's `sep.join(parts)`. */
  function Join(parts: seq<string>, sep: string): (r: string)
    ensures |parts| == 1 ==> r == parts[0]
  {
    if |parts| == 0 then ""
    else if |parts| == 1 then parts[0]
    else parts[0] + sep + Join(parts[1..], sep)
  }

  /** Python's `isdigit()` on ASCII text: non-empty and made of decimal digits only. */
  predicate IsDigits(s: string) {
    s != [] && forall i :: 0 <= i < |s| ==> IsDigit(s[i])
  }

  /** The number a string of decimal digits denotes (leading zeros allowed, as `int()` allows them). */
  function DigitsValue(s: string): nat
    requires forall i :: 0 <= i < |s| ==> IsDigit(s[i])
  {
    if s == [] then 0 else DigitsValue(s[..|s| - 1]) * 10 + DigitValue(s[|s| - 1])
  }

  function DigitValue(c: char): nat
    requires IsDigit(c)
  {
    c as int - '0' as int
  }

  function Pow10(n: nat): (r: nat)
    ensures r >= 1
  {
    if n == 0 then 1 else 10 * Pow10(n - 1)
  }

  /** A string of `n` digits denotes a number below 10^n. */
  lemma {:induction false} DigitsValueBelow(s: string)
    requires forall i :: 0 <= i < |s| ==> IsDigit(s[i])
    ensures DigitsValue(s) < Pow10(|s|)
  {
    if s != [] {
      var init := s[..|s| - 1];
      DigitsValueBelow(init);
      assert DigitsValue(init) + 1 <= Pow10(|init|);
      assert DigitsValue(s) == DigitsValue(init) * 10 + DigitValue(s[|s| - 1]);
      assert DigitsValue(init) * 10 + 10 <= Pow10(|init|) * 10;
    }
  }

  lemma {:induction false} Pow10Add(m: nat, n: nat)
    ensures Pow10(m + n) == Pow10(m) * Pow10(n)
  {
    if m > 0 {
      Pow10Add(m - 1, n);
      assert Pow10(m + n) == 10 * Pow10(m - 1 + n);
    }
  }

  lemma Pow10Of18()
    ensures Pow10(18) == 1_000_000_000_000_000_000
  {
    assert Pow10(6) == 1_000_000;
    Pow10Add(6, 6);
    Pow10Add(12, 6);
  }

  lemma {:induction false} Pow10Monotone(m: nat, n: nat)
    requires m <= n
    ensures Pow10(m) <= Pow10(n)
  {
    if m < n {
      Pow10Monotone(m, n - 1);
    }
  }

  /** `pattern` occurs in `text` as a contiguous piece: SQL `text LIKE '%pattern%'`
      for a pattern without wildcard characters. */
  predicate Contains(text: string, pattern: string) {
    pattern <= text || (text != [] && Contains(text[1..], pattern))
  }

  predicate OccursAt(text: string, pattern: string, i: int) {
    0 <= i <= |text| - |pattern| && text[i..i + |pattern|] == pattern
  }

  // ---------------------------------------------------------------------------
  // Properties
  // ---------------------------------------------------------------------------

  /** `Contains` is exactly "occurs at some offset". */
  lemma {:induction false} ContainsIffOccursAt(text: string, pattern: string)
    ensures Contains(text, pattern) <==> exists i :: OccursAt(text, pattern, i)
  {
    if pattern <= text {
      assert OccursAt(text, pattern, 0);
    } else if text == [] {
    } else {
      ContainsIffOccursAt(text[1..], pattern);
      if exists i :: OccursAt(text, pattern, i) {
        var i :| OccursAt(text, pattern, i);
        PrefixOccursAtStart(text, pattern);
        OccursAtShift(text, pattern, i);
      }
      if Contains(text[1..], pattern) {
        var j :| OccursAt(text[1..], pattern, j);
        OccursAtShift(text, pattern, j + 1);
      }
    }
  }

  lemma PrefixOccursAtStart(text: string, pattern: string)
    ensures OccursAt(text, pattern, 0) <==> pattern <= text
  {
    if |pattern| <= |text| {
      assert text[0..|pattern|] == text[..|pattern|];
    }
  }

  /** An occurrence past the first character is an occurrence in the rest of the text. */
  lemma OccursAtShift(text: string, pattern: string, i: int)
    requires text != [] && i >= 1
    ensures OccursAt(text, pattern, i) <==> OccursAt(text[1..], pattern, i - 1)
  {
    if 0 <= i - 1 <= |text[1..]| - |pattern| {
      assert text[1..][i - 1..i - 1 + |pattern|] == text[i..i + |pattern|];
    }
  }

  /** The empty pattern occurs everywhere; a longer pattern never occurs in a shorter text. */
  lemma {:induction false} ContainsLength(text: string, pattern: string)
    ensures pattern == [] ==> Contains(text, pattern)
    ensures Contains(text, pattern) ==> |pattern| <= |text|
  {
    ContainsIffOccursAt(text, pattern);
    if pattern == [] {
      assert OccursAt(text, pattern, 0);
    }
  }

  /** A string that is already a single word splits into itself. */
  lemma SplitWord(w: string)
    requires IsWord(w)
    ensures Split(w) == [w]
  {
    assert TrimStart(w) == w;
    WordLengthOfWord(w, []);
    assert w + [] == w;
    assert w[..|w|] == w && w[|w|..] == [];
    assert TrimStart([]) == [];
  }

  /** The first word of `w + rest` is `w` when `rest` is empty or starts with a space. */
  lemma {:induction false} WordLengthOfWord(w: string, rest: string)
    requires forall i :: 0 <= i < |w| ==> !IsSpace(w[i])
    requires rest == [] || IsSpace(rest[0])
    ensures WordLength(w + rest) == |w|
  {
    if w != [] {
      assert (w + rest)[1..] == w[1..] + rest;
      WordLengthOfWord(w[1..], rest);
    } else {
      assert w + rest == rest;
    }
  }

  /** Leading whitespace does not change the words. */
  lemma SplitSkipsSpace(c: char, s: string)
    requires IsSpace(c)
    ensures Split([c] + s) == Split(s)
  {
    assert ([c] + s)[1..] == s;
  }

  /** Splitting words joined by single spaces gives the words back. */
  lemma {:induction false} SplitJoin(words: seq<string>)
    requires forall w :: w in words ==> IsWord(w)
    ensures Split(Join(words, " ")) == words
  {
    if |words| == 0 {
    } else if |words| == 1 {
      SplitWord(words[0]);
    } else {
      var w, rest := words[0], Join(words[1..], " ");
      var s := w + " " + rest;
      assert Join(words, " ") == s;
      assert TrimStart(s) == s;
      WordLengthOfWord(w, " " + rest);
      assert w + (" " + rest) == s;
      assert s[..|w|] == w;
      assert s[|w|..] == [' '] + rest;
      SplitSkipsSpace(' ', rest);
      SplitJoin(words[1..]);
    }
  }

  /** A string has no words exactly when it is blank, that is when it strips to "". */
  lemma SplitEmptyIffBlank(s: string)
    ensures Split(s) == [] <==> Strip(s) == []
  {
    var t := TrimStart(s);
    if t != [] {
      var r := TrimEnd(t);
      assert !IsSpace(t[0]);
    }
  }
}
