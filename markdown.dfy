/** `generate_markdown_table` of src/utils/pure.py: renders a header row, an alignment row
    and body rows as a Markdown table. */
module MarkdownTable {
  import opened Wrappers
  import opened Text

  /** The alignment letters 'l', 'c' and 'r'. */
  datatype Align = Left | Center | Right

  /** The `ValueError` raised when the alignments do not match the header cells. */
  datatype TableError = AlignsLengthMismatch

  const NEWLINE: char := '\n'

  /** The separator-row token for one column. */
  function AlignToken(a: Align): string {
    match a
    case Left => ":---"
    case Center => ":---:"
    case Right => "---:"
  }

  function AlignTokens(aligns: seq<Align>): (tokens: seq<string>)
    ensures |tokens| == |aligns|
    ensures forall i :: 0 <= i < |aligns| ==> tokens[i] == AlignToken(aligns[i])
  {
    if aligns == [] then [] else [AlignToken(aligns[0])] + AlignTokens(aligns[1..])
  }

  /** One line of the table: `"| " + " | ".join(cells) + " |"`. */
  function TableLine(cells: seq<string>): string {
    "| " + Join(cells, " | ") + " |"
  }

  function TableLines(rows: seq<seq<string>>): (lines: seq<string>)
    ensures |lines| == |rows|
    ensures forall i :: 0 <= i < |rows| ==> lines[i] == TableLine(rows[i])
  {
    if rows == [] then [] else [TableLine(rows[0])] + TableLines(rows[1..])
  }

  /** Python truthiness of the optional header list: `None` and `[]` are both false. */
  predicate HasHeaders(headers: Option<seq<string>>) {
    headers.Some? && headers.value != []
  }

  /** The header cells actually used: the given ones, or else the first row. */
  function HeaderCells(headers: Option<seq<string>>, rows: seq<seq<string>>): seq<string>
    requires rows != []
  {
    if HasHeaders(headers) then headers.value else rows[0]
  }

  /** The rows rendered below the separator: all rows, or all but the first when it became the header. */
  function BodyRows(headers: Option<seq<string>>, rows: seq<seq<string>>): seq<seq<string>>
    requires rows != []
  {
    if HasHeaders(headers) then rows else rows[1..]
  }

  /** The alignments used: all centred when none are given. */
  function ColumnAligns(aligns: Option<seq<Align>>, columns: nat): seq<Align> {
    if aligns.None? then seq(columns, _ => Center) else aligns.value
  }

  /** `generate_markdown_table`: the table text, or the `ValueError` for mismatched
      alignments. No rows give the empty string without the headers or alignments being
      looked at; a successful table opens with the header line, a newline and the
      separator line. */
  function GenerateMarkdownTable(headers: Option<seq<string>>, rows: seq<seq<string>>,
                                 aligns: Option<seq<Align>>): (r: Result<string, TableError>)
    ensures rows == [] ==> r == Success("")
    ensures r.Failure? ==> rows != [] && aligns.Some?
    ensures r.Success? && rows != [] ==>
              var header := HeaderCells(headers, rows);
              TableLine(header) + [NEWLINE] + TableLine(AlignTokens(ColumnAligns(aligns, |header|))) <= r.value
  {
    if rows == [] then Success("")
    else
      var header := HeaderCells(headers, rows);
      if aligns.Some? && |aligns.value| != |header| then Failure(AlignsLengthMismatch)
      else
        var lines := RenderedLines(header, ColumnAligns(aligns, |header|), BodyRows(headers, rows));
        JoinStartsWithTwo(lines, [NEWLINE]);
        Success(Join(lines, [NEWLINE]))
  }

  /** A join of at least two parts opens with the first part, the separator and the second. */
  lemma JoinStartsWithTwo(parts: seq<string>, sep: string)
    requires |parts| >= 2
    ensures parts[0] + sep + parts[1] <= Join(parts, sep)
  {
    var rest := Join(parts[1..], sep);
    assert parts[1..][0] == parts[1];
    if |parts| > 2 {
      assert parts[1..][1..] == parts[2..];
      assert rest == parts[1] + sep + Join(parts[2..], sep);
    }
    assert Join(parts, sep) == parts[0] + sep + rest;
    assert parts[1] <= rest;
  }

  /** The lines joined by newlines: header line, separator line, one line per body row. */
  function RenderedLines(header: seq<string>, aligns: seq<Align>, body: seq<seq<string>>): seq<string> {
    [TableLine(header), TableLine(AlignTokens(aligns))] + TableLines(body)
  }

  // ---------------------------------------------------------------------------
  // Reading the output back: Python's `s.split("\n")`
  // ---------------------------------------------------------------------------

  /** The pieces of `s` between occurrences of `sep`; never empty. */
  function SplitOn(s: string, sep: char): (parts: seq<string>)
    ensures |parts| >= 1
  {
    if s == [] then [[]]
    else
      var rest := SplitOn(s[1..], sep);
      if s[0] == sep then [[]] + rest else [[s[0]] + rest[0]] + rest[1..]
  }

  lemma {:induction false} SplitOnWithout(s: string, sep: char)
    requires sep !in s
    ensures SplitOn(s, sep) == [s]
  {
    if s != [] {
      SplitOnWithout(s[1..], sep);
      assert [s[0]] + s[1..] == s;
    }
  }

  lemma {:induction false} SplitOnFirst(a: string, sep: char, b: string)
    requires sep !in a
    ensures SplitOn(a + [sep] + b, sep) == [a] + SplitOn(b, sep)
  {
    var s := a + [sep] + b;
    if a == [] {
      assert s == [sep] + b;
      assert s[1..] == b;
    } else {
      assert s[1..] == a[1..] + [sep] + b;
      SplitOnFirst(a[1..], sep, b);
      assert [a[0]] + a[1..] == a;
    }
  }

  /** Splitting lines joined by a separator none of them contains gives the lines back. */
  lemma {:induction false} SplitOnJoin(lines: seq<string>, sep: char)
    requires |lines| >= 1
    requires forall l :: l in lines ==> sep !in l
    ensures SplitOn(Join(lines, [sep]), sep) == lines
  {
    if |lines| == 1 {
      SplitOnWithout(lines[0], sep);
    } else {
      SplitOnJoin(lines[1..], sep);
      SplitOnFirst(lines[0], sep, Join(lines[1..], [sep]));
    }
  }

  /** A joined string holds no character that is in neither the parts nor the separator. */
  lemma {:induction false} JoinAvoids(parts: seq<string>, sep: string, c: char)
    requires c !in sep
    requires forall p :: p in parts ==> c !in p
    ensures c !in Join(parts, sep)
  {
    if |parts| > 1 {
      JoinAvoids(parts[1..], sep, c);
    }
  }

  lemma TableLineAvoids(cells: seq<string>, c: char)
    requires c != '|' && c != ' '
    requires forall cell :: cell in cells ==> c !in cell
    ensures c !in TableLine(cells)
  {
    JoinAvoids(cells, " | ", c);
  }

  // ---------------------------------------------------------------------------
  // Properties
  // ---------------------------------------------------------------------------

  /** Without headers (`None` or `[]`) the first row is the header and the rest is the body. */
  lemma FirstRowBecomesHeader(headers: Option<seq<string>>, rows: seq<seq<string>>)
    requires rows != [] && !HasHeaders(headers)
    ensures HeaderCells(headers, rows) == rows[0]
    ensures BodyRows(headers, rows) == rows[1..]
  {
  }

  /** The call fails exactly when alignments are given and their number differs from the
      number of header cells. */
  lemma FailsIffAlignsMismatch(headers: Option<seq<string>>, rows: seq<seq<string>>,
                               aligns: Option<seq<Align>>)
    requires rows != []
    ensures GenerateMarkdownTable(headers, rows, aligns).Failure? <==>
            aligns.Some? && |aligns.value| != |HeaderCells(headers, rows)|
  {
  }

  /** With no alignments every column is centred: the second line is `| :---: | ... |`. */
  lemma DefaultAlignIsCentre(n: nat)
    ensures AlignTokens(ColumnAligns(None, n)) == seq(n, _ => ":---:")
  {
  }

  /** When no cell contains a line break, the output reads back as exactly 2 + (number of
      body rows) lines: the header line, the alignment line, then one line per body row,
      each of the form `| cell | cell |`. */
  lemma {:induction false} OutputLines(headers: Option<seq<string>>, rows: seq<seq<string>>,
                                       aligns: Option<seq<Align>>)
    requires rows != []
    requires GenerateMarkdownTable(headers, rows, aligns).Success?
    requires HasHeaders(headers) ==> forall cell :: cell in headers.value ==> NEWLINE !in cell
    requires forall row, cell :: row in rows && cell in row ==> NEWLINE !in cell
    ensures var lines := SplitOn(GenerateMarkdownTable(headers, rows, aligns).value, NEWLINE);
            && |lines| == 2 + |BodyRows(headers, rows)|
            && lines[0] == TableLine(HeaderCells(headers, rows))
            && lines[1] == TableLine(AlignTokens(ColumnAligns(aligns, |HeaderCells(headers, rows)|)))
            && forall i :: 0 <= i < |BodyRows(headers, rows)| ==>
                 lines[2 + i] == TableLine(BodyRows(headers, rows)[i])
  {
    var header := HeaderCells(headers, rows);
    var body := BodyRows(headers, rows);
    assert header == rows[0] || HasHeaders(headers);
    assert forall row :: row in body ==> row in rows;
    RenderedLinesAvoid(header, ColumnAligns(aligns, |header|), body, NEWLINE);
    SplitOnJoin(RenderedLines(header, ColumnAligns(aligns, |header|), body), NEWLINE);
  }

  /** A character that is not part of the table syntax and in no cell is in no rendered line. */
  lemma RenderedLinesAvoid(header: seq<string>, aligns: seq<Align>, body: seq<seq<string>>, c: char)
    requires c !in "|:- "
    requires forall cell :: cell in header ==> c !in cell
    requires forall row, cell :: row in body && cell in row ==> c !in cell
    ensures forall l :: l in RenderedLines(header, aligns, body) ==> c !in l
  {
    var tokens := AlignTokens(aligns);
    TableLineAvoids(header, c);
    forall t | t in tokens ensures c !in t {
      var i :| 0 <= i < |tokens| && tokens[i] == t;
    }
    TableLineAvoids(tokens, c);
    forall l | l in TableLines(body) ensures c !in l {
      var i :| 0 <= i < |body| && TableLines(body)[i] == l;
      assert body[i] in body;
      TableLineAvoids(body[i], c);
    }
  }
}
