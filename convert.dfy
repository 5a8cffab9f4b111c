/** `_to_int` of src/db/crud.py: Python's `int(val)`, with `TypeError` and `ValueError`
    turned into `None`. */
module Convert {
  import opened Wrappers
  import opened Text

  /** The Python values the helper can be handed: `None`, a bool, an int or a str. */
  datatype PyValue = PyNone | PyBool(b: bool) | PyInt(i: int) | PyStr(s: string)

  /** A base-10 literal body as `int()` accepts it: digits, with single underscores
      allowed between two digits. */
  predicate IsDigitGroup(s: string) {
    && s != []
    && IsDigit(s[0])
    && IsDigit(s[|s| - 1])
    && (forall i :: 0 <= i < |s| ==> IsDigit(s[i]) || s[i] == '_')
    && (forall i :: 0 <= i < |s| - 1 ==> !DoubleUnderscoreAt(s, i))
  }

  predicate DoubleUnderscoreAt(s: string, i: int)
    requires 0 <= i < |s| - 1
  {
    s[i] == '_' && s[i + 1] == '_'
  }

  function RemoveUnderscores(s: string): (r: string)
    ensures (forall i :: 0 <= i < |s| ==> IsDigit(s[i]) || s[i] == '_') ==>
            forall i :: 0 <= i < |r| ==> IsDigit(r[i])
  {
    if s == [] then []
    else (if s[0] == '_' then [] else [s[0]]) + RemoveUnderscores(s[1..])
  }

  /** `int(s)` for a str: surrounding whitespace is ignored, one optional sign, then a
      digit group; anything else is a `ValueError`, reported as `None`. */
  function ParseInt(s: string): (r: Option<int>)
  {
    ParseLiteral(Strip(s))
  }

  /** An unpadded literal: one optional sign, then a digit group. */
  function ParseLiteral(t: string): (r: Option<int>)
  {
    if t != [] && (t[0] == '+' || t[0] == '-') then
      var body := t[1..];
      if IsDigitGroup(body) then
        var m: int := DigitsValue(RemoveUnderscores(body));
        Some(if t[0] == '-' then -m else m)
      else None
    else if IsDigitGroup(t) then Some(DigitsValue(RemoveUnderscores(t)))
    else None
  }

  /** `_to_int(val)`: `int(val)`, or `None` where Python raises `TypeError` or `ValueError`. */
  function ToInt(v: PyValue): (r: Option<int>)
    ensures v.PyNone? ==> r == None
    ensures v.PyInt? ==> r == Some(v.i)
    ensures v.PyBool? ==> r == Some(if v.b then 1 else 0)
    ensures v.PyStr? ==> (r.Some? <==> IsIntLiteral(Strip(v.s)))
    ensures v.PyStr? && IsDigits(v.s) ==> r == Some(DigitsValue(v.s))
    ensures v.PyStr? && r.Some? ==> ParseInt(Show(r.value)) == r
  {
    match v
    case PyNone => None
    case PyBool(b) => Some(if b then 1 else 0)
    case PyInt(i) => Some(i)
    case PyStr(s) => ParseIntFacts(s); ParseInt(s)
  }

  /** The text `int()` accepts once stripped: an optional sign, then a digit group. */
  predicate IsIntLiteral(t: string) {
    IsDigitGroup(t) || (t != [] && (t[0] == '+' || t[0] == '-') && IsDigitGroup(t[1..]))
  }

  /** A character that can appear in an integer literal. */
  predicate IsLiteralChar(c: char) {
    IsDigit(c) || c == '_' || c == '+' || c == '-'
  }

  /** What reading a string gives: a value exactly for a literal, the digits' value for a
      plain digit string, and a value whose decimal text reads back to it. */
  lemma ParseIntFacts(s: string)
    ensures ParseInt(s).Some? <==> IsIntLiteral(Strip(s))
    ensures IsDigits(s) ==> ParseInt(s) == Some(DigitsValue(s))
    ensures ParseInt(s).Some? ==> ParseInt(Show(ParseInt(s).value)) == ParseInt(s)
  {
    if IsDigits(s) {
      ParseDigits(s);
    }
    if ParseInt(s).Some? {
      ParseShow(ParseInt(s).value);
    }
  }

  // ---------------------------------------------------------------------------
  // Python's `str(n)`, the partner of `int(s)`
  // ---------------------------------------------------------------------------

  function DigitChar(d: nat): (c: char)
    requires d < 10
    ensures IsDigit(c) && DigitValue(c) == d
  {
    ('0' as int + d) as char
  }

  /** The decimal digits of `n`, most significant first, without leading zeros. */
  function NatDigits(n: nat): (s: string)
    ensures s != []
    ensures forall i :: 0 <= i < |s| ==> IsDigit(s[i])
    ensures DigitsValue(s) == n
  {
    if n < 10 then
      var s := [DigitChar(n)];
      assert s[..0] == [];
      s
    else
      var s := NatDigits(n / 10) + [DigitChar(n % 10)];
      assert s[..|s| - 1] == NatDigits(n / 10);
      s
  }

  /** Python's `str(n)` for an int. */
  function Show(n: int): string {
    if n < 0 then "-" + NatDigits(-n) else NatDigits(n)
  }

  // ---------------------------------------------------------------------------
  // Properties
  // ---------------------------------------------------------------------------

  lemma {:induction false} RemoveUnderscoresOfDigits(s: string)
    requires forall i :: 0 <= i < |s| ==> IsDigit(s[i])
    ensures RemoveUnderscores(s) == s
  {
    if s != [] {
      RemoveUnderscoresOfDigits(s[1..]);
      assert s == [s[0]] + s[1..];
    }
  }

  lemma StripKeepsUnpadded(s: string)
    requires s != [] && !IsSpace(s[0]) && !IsSpace(s[|s| - 1])
    ensures Strip(s) == s
  {
    assert TrimStart(s) == s;
  }

  lemma DigitsAreAGroup(s: string)
    requires s != [] && forall i :: 0 <= i < |s| ==> IsDigit(s[i])
    ensures IsDigitGroup(s)
  {
  }

  /** A string of digits with no padding and no sign reads as its value. */
  lemma ParseDigits(d: string)
    requires d != [] && forall i :: 0 <= i < |d| ==> IsDigit(d[i])
    ensures ParseInt(d) == Some(DigitsValue(d))
  {
    assert IsDigit(d[0]) && IsDigit(d[|d| - 1]);
    StripKeepsUnpadded(d);
    ParseLiteralDigits(d);
    calc {
      ParseInt(d);
      ParseLiteral(Strip(d));
      { assert Strip(d) == d; }
      ParseLiteral(d);
    }
  }

  lemma ParseLiteralDigits(d: string)
    requires d != [] && forall i :: 0 <= i < |d| ==> IsDigit(d[i])
    ensures ParseLiteral(d) == Some(DigitsValue(d))
  {
    DigitsAreAGroup(d);
    RemoveUnderscoresOfDigits(d);
    assert IsDigit(d[0]);
  }

  lemma ParseLiteralNegative(d: string)
    requires d != [] && forall i :: 0 <= i < |d| ==> IsDigit(d[i])
    ensures ParseLiteral("-" + d) == Some(0 - DigitsValue(d))
  {
    DigitsAreAGroup(d);
    RemoveUnderscoresOfDigits(d);
    var s := "-" + d;
    assert s[0] == '-' && s[1..] == d;
  }

  /** A minus sign followed by digits reads as the negated value. */
  lemma ParseNegativeDigits(d: string)
    requires d != [] && forall i :: 0 <= i < |d| ==> IsDigit(d[i])
    ensures ParseInt("-" + d) == Some(0 - DigitsValue(d))
  {
    var s := "-" + d;
    ParseLiteralNegative(d);
    assert s[|s| - 1] == d[|d| - 1] && IsDigit(d[|d| - 1]);
    StripKeepsUnpadded(s);
  }

  /** `int(str(n)) == n` for every int `n`. */
  lemma ParseShow(n: int)
    ensures ParseInt(Show(n)) == Some(n)
  {
    if n < 0 {
      ParseNegativeDigits(NatDigits(-n));
    } else {
      ParseDigits(NatDigits(n));
    }
  }

  /** `_to_int(str(n)) == n` for every int `n`. */
  lemma ToIntShowRoundTrip(n: int)
    ensures ToInt(PyStr(Show(n))) == Some(n)
  {
    ParseShow(n);
  }

  /** Leading and trailing whitespace, of any length, does not change what `_to_int`
      reads from a string. */
  lemma ToIntIgnoresPadding(p: string, s: string, q: string)
    requires IsBlank(p) && IsBlank(q)
    ensures ToInt(PyStr(p + s + q)) == ToInt(PyStr(s))
  {
    StripPadded(p, s, q);
  }

  /** `None` and every string that is not a literal once stripped read as nothing; in
      particular any string whose stripped text holds a character that is neither a
      digit, an underscore nor a sign, such as `"nan"`. */
  lemma ToIntRejects(s: string)
    ensures ToInt(PyNone) == None
    ensures ToInt(PyStr(s)) == None <==> !IsIntLiteral(Strip(s))
    ensures (exists i :: 0 <= i < |Strip(s)| && !IsLiteralChar(Strip(s)[i])) ==> ToInt(PyStr(s)) == None
    ensures ToInt(PyStr("nan")) == None
  {
    var t := Strip(s);
    if i :| 0 <= i < |t| && !IsLiteralChar(t[i]) {
      assert !IsDigitGroup(t);
      if 1 <= i {
        assert t[1..][i - 1] == t[i];
      }
    }
    var nan := "nan";
    assert nan[0] == 'n' && !IsLiteralChar(nan[0]);
    StripKeepsUnpadded(nan);
    assert !IsIntLiteral(nan);
  }
}
