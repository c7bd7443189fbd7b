/** What `convert_markdown_to_docx` produces, as pure functions over the list
    of lines: the blocks it hands to the document library, how one line (with
    its lookahead) is classified, and the whole scan. The imperative loop in
    module Converter is proved to compute exactly `Scan`. */
module Markdown {
  import opened Text
  import opened Patterns

  /** A run of a paragraph: `p.add_run(text)` with its bold and italic flags. */
  datatype Run = Run(text: string, bold: bool, italic: bool)

  /** One call of the document library. */
  datatype Block =
    | Heading(level: nat, text: string)          // doc.add_heading(text, level)
    | Paragraph(runs: seq<Run>)                  // doc.add_paragraph() followed by add_run calls
    | TableGrid(cells: seq<seq<string>>)         // doc.add_table with the text of every cell
    | ImageEmbedded(path: string)                // doc.add_picture
    | ImageFallback(text: string)                // doc.add_paragraph("[이미지: ...]")
    | Bullet(level: nat, text: string)           // doc.add_paragraph(text, style='List Bullet' / 'List Bullet 2')
    | Rule(text: string)                         // doc.add_paragraph('_' * 40)

  /** What one turn of the scan loop emits and how many lines it consumes. */
  datatype Step = Step(blocks: seq<Block>, consumed: nat)

  // ---------------------------------------------------------------------------
  // Line tests and texts

  /** The characters `lstrip('# ')` removes from a heading line. */
  const HeadingMarks: set<char> := {'#', ' '}

  /** The characters `lstrip('- *')` removes from a bullet line. */
  const BulletMarks: set<char> := {'-', ' ', '*'}

  /** `'#' * n`. */
  function Hashes(n: nat): string {
    seq(n, _ => '#')
  }

  /** `line.lstrip('# ').strip()`, the same for all three heading levels. */
  function HeadingText(line: string): string {
    Strip(TrimStart(line, HeadingMarks))
  }

  /** `line.lstrip('- *').strip()`, the text of a first-level bullet. */
  function BulletText(line: string): string {
    Strip(TrimStart(line, BulletMarks))
  }

  /** `line.lstrip().lstrip('- *').strip()`, the text of a second-level bullet. */
  function SubBulletText(line: string): string {
    Strip(TrimStart(TrimStart(line, Whitespace), BulletMarks))
  }

  /** A table line: `line.strip().startswith('|')`. */
  predicate IsTableLine(line: string) {
    StartsWith(Strip(line), "|")
  }

  /** A second-level bullet: the untrimmed line starts with two spaces and a marker. */
  predicate IsSubBulletLine(line: string) {
    StartsWith(line, "  - ") || StartsWith(line, "  * ")
  }

  /** Every field trimmed. */
  function StripAll(fields: seq<string>): (r: seq<string>)
    ensures |r| == |fields|
  {
    if fields == [] then [] else [Strip(fields[0])] + StripAll(fields[1..])
  }

  lemma {:induction false} StripAllSpec(fields: seq<string>)
    ensures forall k :: 0 <= k < |fields| ==> StripAll(fields)[k] == Strip(fields[k])
  {
    if fields != [] {
      StripAllSpec(fields[1..]);
    }
  }

  /** `[cell.strip() for cell in line.split('|')[1:-1]]`: the fields between
      the first and the last `|`, trimmed. There is one cell fewer than there
      are pipes, so a row without a closing `|` loses its last field. */
  function Cells(line: string): seq<string> {
    var fields := SplitOn(line, '|');
    if |fields| < 2 then [] else StripAll(fields[1..|fields| - 1])
  }

  /** A line has one cell fewer than it has pipes (none without a pipe),
      and no cell holds a pipe. */
  lemma CellsSpec(line: string)
    ensures var cells := Cells(line);
      |cells| == (if Occurrences(line, '|') == 0 then 0 else Occurrences(line, '|') - 1) &&
      forall k :: 0 <= k < |cells| ==> '|' !in cells[k]
  {
    var fields := SplitOn(line, '|');
    SplitOnCount(line, '|');
    SplitOnFields(line, '|');
    if |fields| >= 2 {
      var inner := fields[1..|fields| - 1];
      StripAllSpec(inner);
      forall k | 0 <= k < |inner| ensures '|' !in Strip(inner[k]) {
        assert inner[k] == fields[k + 1];
        StripSpec(inner[k]);
      }
    }
  }

  /** The fallback paragraph for an image that cannot be embedded. */
  function FallbackText(desc: string): string {
    "[이미지: " + desc + "]"
  }

  /** The text of a horizontal rule paragraph: `'_' * 40`. */
  const RuleText: string := "________________________________________"

  // ---------------------------------------------------------------------------
  // Tables

  /** `n` empty cells. */
  function Blanks(n: nat): (r: seq<string>)
    ensures |r| == n
  {
    if n == 0 then [] else [""] + Blanks(n - 1)
  }

  lemma {:induction false} BlanksSpec(n: nat)
    ensures forall k :: 0 <= k < n ==> Blanks(n)[k] == ""
  {
    if n > 0 {
      BlanksSpec(n - 1);
    }
  }

  /** A body row as it lands in a table `width` columns wide: cells past the
      width are dropped and missing cells stay empty. */
  function FitRow(row: seq<string>, width: nat): (r: seq<string>)
    ensures |r| == width
  {
    if |row| >= width then row[..width] else row + Blanks(width - |row|)
  }

  /** A fitted row keeps the cells of the row that fit and is empty past its end. */
  lemma FitRowSpec(row: seq<string>, width: nat)
    ensures forall c :: 0 <= c < width && c < |row| ==> FitRow(row, width)[c] == row[c]
    ensures forall c :: |row| <= c < width ==> FitRow(row, width)[c] == ""
  {
    if |row| < width {
      BlanksSpec(width - |row|);
    }
  }

  /** Every body row fitted to `width` columns. */
  function FitRows(rows: seq<seq<string>>, width: nat): (r: seq<seq<string>>)
    ensures |r| == |rows|
  {
    if rows == [] then [] else [FitRow(rows[0], width)] + FitRows(rows[1..], width)
  }

  lemma {:induction false} FitRowsSpec(rows: seq<seq<string>>, width: nat)
    ensures forall k :: 0 <= k < |rows| ==> FitRows(rows, width)[k] == FitRow(rows[k], width)
  {
    if rows != [] {
      FitRowsSpec(rows[1..], width);
    }
  }

  /** The cell texts of the table built for a header and its body rows. */
  function Grid(header: seq<string>, rows: seq<seq<string>>): (g: seq<seq<string>>)
    ensures |g| == |rows| + 1
  {
    [header] + FitRows(rows, |header|)
  }

  /** The table has `len(rows) + 1` rows of `len(header)` columns, the header
      first; below it each body row is cut to the header's width or padded
      with empty cells. */
  lemma GridSpec(header: seq<string>, rows: seq<seq<string>>)
    ensures Grid(header, rows)[0] == header
    ensures forall r :: 0 <= r <= |rows| ==> |Grid(header, rows)[r]| == |header|
    ensures forall r, c :: 1 <= r <= |rows| && 0 <= c < |header| ==>
      Grid(header, rows)[r][c] == if c < |rows[r - 1]| then rows[r - 1][c] else ""
  {
    var body := FitRows(rows, |header|);
    FitRowsSpec(rows, |header|);
    assert forall r :: 1 <= r <= |rows| ==> ([header] + body)[r] == body[r - 1];
    forall q | 0 <= q < |rows| {
      FitRowSpec(rows[q], |header|);
    }
  }

  // ---------------------------------------------------------------------------
  // Paragraph runs

  /** The runs the inner loop adds for the parts of `re.split` of the italic
      pattern, from index `j` on: even parts plain, odd parts italic, empty
      parts skipped. */
  function ItalicRuns(parts: seq<string>, j: nat): seq<Run>
    decreases |parts| - j
  {
    if j >= |parts| then []
    else (if parts[j] == [] then [] else [Run(parts[j], false, j % 2 == 1)]) + ItalicRuns(parts, j + 1)
  }

  /** The runs the outer loop adds for the parts of `re.split` of the bold
      pattern, from index `k` on: even parts go through the italic split, odd
      parts become bold runs. */
  function BoldRuns(parts: seq<string>, k: nat): seq<Run>
    decreases |parts| - k
  {
    if k >= |parts| then []
    else
      (if k % 2 == 0 then ItalicRuns(StarSplit(parts[k], 1), 0) else [Run(parts[k], true, false)])
      + BoldRuns(parts, k + 1)
  }

  /** The runs of a plain paragraph line. */
  function Runs(line: string): seq<Run> {
    BoldRuns(StarSplit(line, 2), 0)
  }

  // ---------------------------------------------------------------------------
  // The scan

  /** How many lines from `lines[from]` on pass `p`: the lookahead of the
      table-row and sub-bullet loops, which stop at the first line failing the test. */
  function CountWhile(lines: seq<string>, from: nat, p: string -> bool): (n: nat)
    requires from <= |lines|
    ensures from + n <= |lines|
    decreases |lines| - from
  {
    if from < |lines| && p(lines[from]) then 1 + CountWhile(lines, from + 1, p) else 0
  }

  /** Every line counted passes the test, and the line after them does not. */
  lemma {:induction false} CountWhileSpec(lines: seq<string>, from: nat, p: string -> bool)
    requires from <= |lines|
    ensures forall k :: from <= k < from + CountWhile(lines, from, p) ==> p(lines[k])
    ensures from + CountWhile(lines, from, p) == |lines| || !p(lines[from + CountWhile(lines, from, p)])
    decreases |lines| - from
  {
    if from < |lines| && p(lines[from]) {
      CountWhileSpec(lines, from + 1, p);
    }
  }

  /** `f` applied to each of `lines[from..stop]`, in order. */
  function MapLines<T>(f: string -> T, lines: seq<string>, from: nat, stop: nat): (r: seq<T>)
    requires from <= stop <= |lines|
    ensures |r| == stop - from
    decreases stop - from
  {
    if from == stop then [] else [f(lines[from])] + MapLines(f, lines, from + 1, stop)
  }

  lemma {:induction false} MapLinesSpec<T>(f: string -> T, lines: seq<string>, from: nat, stop: nat)
    requires from <= stop <= |lines|
    ensures forall k :: 0 <= k < stop - from ==> MapLines(f, lines, from, stop)[k] == f(lines[from + k])
    decreases stop - from
  {
    if from < stop {
      MapLinesSpec(f, lines, from + 1, stop);
    }
  }

  /** With one entry in front, entry `k` is `f` of the `k`-th line of the range. */
  lemma ConsMapLines<T>(f: string -> T, lines: seq<string>, from: nat, stop: nat, head: T)
    requires 1 <= from <= stop <= |lines|
    ensures forall k :: 1 <= k <= stop - from ==> ([head] + MapLines(f, lines, from, stop))[k] == f(lines[from - 1 + k])
  {
    MapLinesSpec(f, lines, from, stop);
    var items := MapLines(f, lines, from, stop);
    forall k | 1 <= k <= stop - from
      ensures ([head] + items)[k] == f(lines[from - 1 + k])
    {
      assert ([head] + items)[k] == items[k - 1];
    }
  }

  /** `doc.add_paragraph(text, style='List Bullet 2')` for a second-level bullet line. */
  function SubBullet(line: string): Block {
    Bullet(2, SubBulletText(line))
  }

  /** A table whose header is `lines[i]`: `lines[i + 1]` is the separator,
      skipped unread, and the body rows are the table lines after it. The
      table is emitted only when header and body are both non-empty, but all
      its lines are consumed either way. */
  function TableStep(lines: seq<string>, i: nat): (st: Step)
    requires i + 2 <= |lines|
    ensures 2 <= st.consumed <= |lines| - i
  {
    var header := Cells(lines[i]);
    var n := CountWhile(lines, i + 2, IsTableLine);
    var rows := MapLines(Cells, lines, i + 2, i + 2 + n);
    Step(if header != [] && rows != [] then [TableGrid(Grid(header, rows))] else [], 2 + n)
  }

  /** An image line: nothing when the pattern does not match, else the
      picture or, when it cannot be embedded, the fallback paragraph. */
  function ImageStep(line: string, embeds: string -> bool): (st: Step)
    ensures st.consumed == 1
  {
    match ImageMatch(line)
    case None => Step([], 1)
    case Some(m) =>
      Step([if embeds(m.path) then ImageEmbedded(m.path) else ImageFallback(FallbackText(m.desc))], 1)
  }

  /** A first-level bullet at `lines[i]` followed by the second-level
      bullets directly below it. */
  function BulletStep(lines: seq<string>, i: nat): (st: Step)
    requires i < |lines|
    ensures 1 <= st.consumed <= |lines| - i
  {
    var n := CountWhile(lines, i + 1, IsSubBulletLine);
    Step([Bullet(1, BulletText(lines[i]))] + MapLines(SubBullet, lines, i + 1, i + 1 + n), 1 + n)
  }

  /** One turn of the loop with the cursor at `i`. `embeds(path)` says
      whether the image file exists and the library manages to embed it. The
      tests come in the source's order and the first that holds wins; every
      turn consumes at least one line and never runs past the end. */
  function StepAt(lines: seq<string>, i: nat, embeds: string -> bool): (st: Step)
    requires i < |lines|
    ensures 1 <= st.consumed <= |lines| - i
  {
    var line := lines[i];
    if IsBlank(line) then Step([], 1)
    else if StartsWith(line, "# ") then Step([Heading(1, HeadingText(line))], 1)
    else if StartsWith(line, "## ") then Step([Heading(2, HeadingText(line))], 1)
    else if StartsWith(line, "### ") then Step([Heading(3, HeadingText(line))], 1)
    else if IsTableLine(line) && i + 1 < |lines| && IsTableLine(lines[i + 1]) then TableStep(lines, i)
    else if StartsWith(Strip(line), "![") then ImageStep(line, embeds)
    else if StartsWith(Strip(line), "- ") || StartsWith(Strip(line), "* ") then BulletStep(lines, i)
    else if StartsWith(Strip(line), "---") then Step([Rule(RuleText)], 1)
    else Step([Paragraph(Runs(line))], 1)
  }

  /** The blocks the loop emits from cursor `i` to the end, in order. */
  function Scan(lines: seq<string>, i: nat, embeds: string -> bool): seq<Block>
    requires i <= |lines|
    decreases |lines| - i
  {
    if i == |lines| then []
    else StepAt(lines, i, embeds).blocks + Scan(lines, i + StepAt(lines, i, embeds).consumed, embeds)
  }

  /** The scan from `i` is what the turn at `i` emits followed by the scan
      from where that turn leaves the cursor. */
  // One unfolding of `Scan` with the turn's results named, for the loop proofs.
  lemma ScanOnce(lines: seq<string>, i: nat, embeds: string -> bool, blocks: seq<Block>, next: nat)
    requires i < |lines|
    requires blocks == StepAt(lines, i, embeds).blocks && next == i + StepAt(lines, i, embeds).consumed
    ensures next <= |lines| && Scan(lines, i, embeds) == blocks + Scan(lines, next, embeds)
  {
  }

  /** The blocks of a whole document, in the order `doc.add_*` is called. */
  function Document(lines: seq<string>, embeds: string -> bool): seq<Block> {
    Scan(lines, 0, embeds)
  }
}
