/** The conversion loop of `convert_markdown_to_docx`, step by step as the
    source runs it: a cursor over the lines, inner loops for table rows and
    second-level bullets, nested loops filling the table cells and adding the
    runs of a paragraph. Each `doc.add_*` call appends a block to `doc`; each
    method is proved to compute the function of module Markdown that
    specifies it. */
module Converter {
  import opened Text
  import opened Patterns
  import opened Markdown
  import opened Properties

  /** The outer `for` loop over the parts of the bold split (lines 155-177). */
  method ParagraphRuns(line: string) returns (runs: seq<Run>)
    ensures runs == Runs(line)
  {
    var parts := StarSplit(line, 2);
    runs := [];
    for idx := 0 to |parts|
      invariant runs + BoldRuns(parts, idx) == BoldRuns(parts, 0)
    {
      ghost var before := runs;
      var more := PartRuns(parts, idx);
      runs := runs + more;
      AppendStep(before, runs, BoldRuns(parts, idx + 1));
    }
  }

  /** One turn of the outer loop: a plain part goes through the italic
      split, a bold part becomes one bold run; either way these runs come
      before those of the later parts. */
  method PartRuns(parts: seq<string>, idx: nat) returns (more: seq<Run>)
    requires idx < |parts|
    ensures BoldRuns(parts, idx) == more + BoldRuns(parts, idx + 1)
  {
    var part := parts[idx];
    if idx % 2 == 0 {
      var italicParts := StarSplit(part, 1);
      more := ItalicPartRuns(italicParts);
    } else {
      more := [Run(part, true, false)];
    }
  }

  /** The inner `for` loop over the parts of the italic split of a plain
      part (lines 167-174): non-empty even parts become plain runs, non-empty
      odd parts italic runs. */
  method ItalicPartRuns(italicParts: seq<string>) returns (runs: seq<Run>)
    ensures runs == ItalicRuns(italicParts, 0)
  {
    runs := [];
    for jdx := 0 to |italicParts|
      invariant runs + ItalicRuns(italicParts, jdx) == ItalicRuns(italicParts, 0)
    {
      var ipart := italicParts[jdx];
      ghost var before := runs;
      if jdx % 2 == 0 {
        if ipart != [] {
          runs := runs + [Run(ipart, false, false)];
        }
      } else {
        if ipart != [] {
          runs := runs + [Run(ipart, false, true)];
        }
      }
      AppendStep(before, runs, ItalicRuns(italicParts, jdx + 1));
    }
  }

  /** Appending one piece to the runs emitted so far and emitting the rest
      after it emits the piece followed by the rest. */
  // A helper for the solver: stated apart, with every part named, so that the caller does not unfold its terms.
  lemma AppendStep(before: seq<Run>, after: seq<Run>, rest: seq<Run>)
    requires before <= after
    ensures after + rest == before + (after[|before|..] + rest)
  {
    assert after == before + after[|before|..];
  }

  /** `doc.add_table(rows=len(rows) + 1, cols=len(header))` starts with every
      cell empty; the loops then write the header into row 0 and each body
      row into the row below it, skipping cells past the table's width
      (lines 78-97). */
  method FillGrid(header: seq<string>, rows: seq<seq<string>>) returns (grid: seq<seq<string>>)
    ensures grid == Grid(header, rows)
  {
    var width := |header|;
    grid := EmptyTable(|rows| + 1, width);
    BlanksSpec(width);
    var hdrCells := grid[0];
    for idx := 0 to |header|
      invariant |hdrCells| == width
      invariant forall c :: 0 <= c < width ==> hdrCells[c] == if c < idx then header[c] else ""
    {
      if idx < |hdrCells| {
        hdrCells := hdrCells[idx := header[idx]];
      }
    }
    grid := grid[0 := hdrCells];
    for r := 0 to |rows|
      invariant |grid| == |rows| + 1 && grid[0] == header
      invariant forall q :: 1 <= q <= r ==> grid[q] == FitRow(rows[q - 1], width)
      invariant forall q :: r < q < |grid| ==> grid[q] == Blanks(width)
    {
      var row := rows[r];
      var cells := grid[r + 1];
      for c := 0 to |row|
        invariant |cells| == width
        invariant forall x :: 0 <= x < width ==> cells[x] == if x < c then row[x] else ""
      {
        if c < |cells| {
          cells := cells[c := row[c]];
        }
      }
      FitRowSpec(row, width);
      assert cells == FitRow(row, width);
      grid := grid[r + 1 := cells];
    }
    GridOfRows(header, rows, grid);
  }

  /** A table whose header row is `header` and whose row `q + 1` is the
      fitted body row `q` is `Grid(header, rows)`. */
  lemma GridOfRows(header: seq<string>, rows: seq<seq<string>>, grid: seq<seq<string>>)
    requires |grid| == |rows| + 1 && grid[0] == header
    requires forall q :: 1 <= q <= |rows| ==> grid[q] == FitRow(rows[q - 1], |header|)
    ensures grid == Grid(header, rows)
  {
    var body := FitRows(rows, |header|);
    FitRowsSpec(rows, |header|);
    assert Grid(header, rows) == [header] + body;
    forall q | 1 <= q < |grid| ensures grid[q] == ([header] + body)[q] {
      assert ([header] + body)[q] == body[q - 1];
    }
  }

  /** The cell texts of a freshly added table: `count` rows of `width` empty cells. */
  function EmptyTable(count: nat, width: nat): (g: seq<seq<string>>)
    ensures |g| == count && forall q :: 0 <= q < count ==> g[q] == Blanks(width)
  {
    if count == 0 then [] else [Blanks(width)] + EmptyTable(count - 1, width)
  }

  /** The table-row loop (lines 71-75): the cells of every table line from
      `from` on, stopping at the first line that is not a table line. */
  method TableBody(lines: seq<string>, from: nat) returns (rows: seq<seq<string>>, next: nat)
    requires from <= |lines|
    ensures next == from + CountWhile(lines, from, IsTableLine)
    ensures rows == MapLines(Cells, lines, from, next)
  {
    rows := [];
    next := from;
    while next < |lines| && IsTableLine(lines[next])
      invariant from <= next <= |lines|
      invariant forall k :: from <= k < next ==> IsTableLine(lines[k])
      invariant |rows| == next - from
      invariant forall k :: 0 <= k < |rows| ==> rows[k] == Cells(lines[from + k])
      decreases |lines| - next
    {
      rows := rows + [Cells(lines[next])];
      next := next + 1;
    }
    CountWhileExact(lines, from, IsTableLine, next - from);
    MapLinesSpec(Cells, lines, from, next);
  }

  /** The sub-bullet loop (lines 134-139): one second-level bullet for every
      line from `from` on that starts with `  - ` or `  * `. */
  method SubBulletItems(lines: seq<string>, from: nat) returns (items: seq<Block>, next: nat)
    requires from <= |lines|
    ensures next == from + CountWhile(lines, from, IsSubBulletLine)
    ensures items == MapLines(SubBullet, lines, from, next)
  {
    items := [];
    next := from;
    while next < |lines| && IsSubBulletLine(lines[next])
      invariant from <= next <= |lines|
      invariant forall k :: from <= k < next ==> IsSubBulletLine(lines[k])
      invariant |items| == next - from
      invariant forall k :: 0 <= k < |items| ==> items[k] == SubBullet(lines[from + k])
      decreases |lines| - next
    {
      items := items + [Bullet(2, SubBulletText(lines[next]))];
      next := next + 1;
    }
    CountWhileExact(lines, from, IsSubBulletLine, next - from);
    MapLinesSpec(SubBullet, lines, from, next);
  }

  /** `convert_markdown_to_docx` without the document library: split the
      text into lines and run the classifying loop (lines 26-179), returning
      the blocks in the order the library would receive them. */
  method Convert(mdContent: string, embeds: string -> bool) returns (doc: seq<Block>)
    ensures doc == Document(SplitOn(mdContent, '\n'), embeds)
  {
    var lines := SplitOn(mdContent, '\n');
    doc := [];
    var i := 0;
    while i < |lines|
      invariant i <= |lines|
      invariant doc + Scan(lines, i, embeds) == Document(lines, embeds)
      decreases |lines| - i
    {
      var blocks, next := ConvertLine(lines, i, embeds);
      ScanAdvance(lines, i, embeds, doc, blocks, next);
      doc := doc + blocks;
      i := next;
    }
  }

  /** One turn of the loop at `lines[i]` */
  method ConvertLine(lines: seq<string>, i: nat, embeds: string -> bool) returns (blocks: seq<Block>, next: nat)
    requires i < |lines|
    ensures blocks == StepAt(lines, i, embeds).blocks && next == i + StepAt(lines, i, embeds).consumed
  {
    var line := lines[i];
    blocks := [];
    if IsBlank(line) {
      BlankStep(lines, i, embeds);
      next := i + 1;
    } else if StartsWith(line, "# ") {
      Heading1Step(lines, i, embeds);
      blocks := [Heading(1, HeadingText(line))];
      next := i + 1;
    } else if StartsWith(line, "## ") {
      Heading2Step(lines, i, embeds);
      blocks := [Heading(2, HeadingText(line))];
      next := i + 1;
    } else if StartsWith(line, "### ") {
      Heading3Step(lines, i, embeds);
      blocks := [Heading(3, HeadingText(line))];
      next := i + 1;
    } else if IsTableLine(line) && i + 1 < |lines| && IsTableLine(lines[i + 1]) {
      TableLineStep(lines, i, embeds);
      blocks, next := TableBlocks(lines, i);
    } else if StartsWith(Strip(line), "![") {
      ImageLineStep(lines, i, embeds);
      blocks := ImageBlocks(line, embeds);
      next := i + 1;
    } else if StartsWith(Strip(line), "- ") || StartsWith(Strip(line), "* ") {
      BulletLineStep(lines, i, embeds);
      blocks, next := BulletBlocks(lines, i);
    } else if StartsWith(Strip(line), "---") {
      RuleLineStep(lines, i, embeds);
      blocks := [Rule(RuleText)];
      next := i + 1;
    } else {
      ParagraphLineStep(lines, i, embeds);
      var runs := ParagraphRuns(line);
      blocks := [Paragraph(runs)];
      next := i + 1;
    }
  }

  /** A table (lines 63-99): the header cells, the separator skipped, the
      body rows, and a table only when header and body are both non-empty. */
  method TableBlocks(lines: seq<string>, i: nat) returns (blocks: seq<Block>, next: nat)
    requires i + 2 <= |lines|
    ensures blocks == TableStep(lines, i).blocks && next == i + TableStep(lines, i).consumed
  {
    var header := Cells(lines[i]);
    var rows;
    rows, next := TableBody(lines, i + 2);
    blocks := [];
    if header != [] && rows != [] {
      var grid := FillGrid(header, rows);
      blocks := [TableGrid(grid)];
    }
  }

  /** An image line (lines 102-123): the picture when it can be embedded,
      else the fallback paragraph, and nothing when the pattern does not match. */
  method ImageBlocks(line: string, embeds: string -> bool) returns (blocks: seq<Block>)
    ensures blocks == ImageStep(line, embeds).blocks
  {
    blocks := [];
    var found := ImageMatch(line);
    if found.Some? {
      if embeds(found.value.path) {
        blocks := [ImageEmbedded(found.value.path)];
      } else {
        blocks := [ImageFallback(FallbackText(found.value.desc))];
      }
    }
  }

  /** A bullet list (lines 126-140): the first-level bullet, then the
      second-level bullets directly below it. */
  method BulletBlocks(lines: seq<string>, i: nat) returns (blocks: seq<Block>, next: nat)
    requires i < |lines|
    ensures blocks == BulletStep(lines, i).blocks && next == i + BulletStep(lines, i).consumed
  {
    var items;
    items, next := SubBulletItems(lines, i + 1);
    blocks := [Bullet(1, BulletText(lines[i]))] + items;
  }

  /** Appending what one turn emits and moving the cursor past what it
      consumed keeps the emitted blocks followed by the rest of the scan
      equal to the whole document. */
  // The step of the loop invariant of `Convert`, stated apart for the solver.
  lemma ScanAdvance(lines: seq<string>, i: nat, embeds: string -> bool, doc: seq<Block>, blocks: seq<Block>, next: nat)
    requires i < |lines|
    requires blocks == StepAt(lines, i, embeds).blocks && next == i + StepAt(lines, i, embeds).consumed
    ensures next <= |lines|
    ensures (doc + blocks) + Scan(lines, next, embeds) == doc + Scan(lines, i, embeds)
  {
    ScanOnce(lines, i, embeds, blocks, next);
    Regroup(doc, blocks, Scan(lines, next, embeds), Scan(lines, i, embeds));
  }

  /** `doc + blocks` followed by `rest` is `doc` followed by `blocks + rest`. */
  // A helper for the solver: stated apart, with every part named, so that the caller does not unfold its terms.
  lemma Regroup(doc: seq<Block>, blocks: seq<Block>, rest: seq<Block>, whole: seq<Block>)
    requires whole == blocks + rest
    ensures (doc + blocks) + rest == doc + whole
  {
  }
}
