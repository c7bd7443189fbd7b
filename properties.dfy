/** What the scan of `convert_markdown_to_docx` guarantees: how each kind of
    line is classified (with the precedence the `if`/`elif` chain gives), that
    the three heading tests never shadow one another, what a table, an image
    and a bullet list produce, that paragraph runs give the line back, and
    that a run of blank lines produces nothing. How a document splits at a
    blank line is in module `Composition`. */
module Properties {
  import opened Text
  import opened Patterns
  import opened Markdown

  // ---------------------------------------------------------------------------
  // Small facts about lines

  /** The lookahead stops exactly at the first line that fails the test. */
  lemma {:induction false} CountWhileExact(lines: seq<string>, from: nat, p: string -> bool, n: nat)
    requires from + n <= |lines|
    requires forall k :: from <= k < from + n ==> p(lines[k])
    requires from + n == |lines| || !p(lines[from + n])
    ensures CountWhile(lines, from, p) == n
    decreases n
  {
    if n > 0 {
      assert p(lines[from]);
      CountWhileExact(lines, from + 1, p, n - 1);
    }
  }

  /** The three heading markers exclude one another, and a heading line is
      not blank and still starts with `#` once trimmed. */
  lemma HeadingMarkerFacts(line: string)
    ensures StartsWith(line, "## ") ==> !StartsWith(line, "# ")
    ensures StartsWith(line, "### ") ==> !StartsWith(line, "# ") && !StartsWith(line, "## ")
    ensures StartsWith(line, "# ") || StartsWith(line, "## ") || StartsWith(line, "### ") ==>
      !IsBlank(line) && Strip(line)[0] == '#'
  {
    StripSpec(line);
    if StartsWith(line, "## ") {
      assert line[..2] != "# " by { assert line[..2][1] == line[1] == '#'; }
    }
    if StartsWith(line, "### ") {
      assert line[..2] != "# " by { assert line[..2][1] == line[1] == '#'; }
      assert line[..3] != "## " by { assert line[..3][2] == line[2] == '#'; }
    }
    if StartsWith(line, "# ") || StartsWith(line, "## ") || StartsWith(line, "### ") {
      assert line[0] == '#';
    }
  }

  /** A line whose trimmed form starts with anything but `#` is neither
      blank nor a heading line. */
  lemma NotHeadingLine(line: string)
    requires Strip(line) != [] && Strip(line)[0] != '#'
    ensures !IsBlank(line)
    ensures !StartsWith(line, "# ") && !StartsWith(line, "## ") && !StartsWith(line, "### ")
  {
    HeadingMarkerFacts(line);
  }

  /** `'#' * n + ' '` for the three levels. */
  lemma HeadingMarkers()
    ensures Hashes(1) + " " == "# " && Hashes(2) + " " == "## " && Hashes(3) + " " == "### "
  {
    assert Hashes(1) == "#";
    assert Hashes(2) == "##";
    assert Hashes(3) == "###";
  }

  // ---------------------------------------------------------------------------
  // Classification of one line

  /** A blank line (only whitespace) emits nothing and consumes one line. */
  lemma {:induction false} BlankStep(lines: seq<string>, i: nat, embeds: string -> bool)
    requires i < |lines| && IsBlank(lines[i])
    ensures StepAt(lines, i, embeds) == Step([], 1)
  {
  }

  /** A line beginning exactly with `n` hashes and a space, for `n` in 1..3,
      is a heading of level `n`: the three tests are tried in the order 1, 2,
      3, and none of them can take a line meant for another. */
  lemma HeadingStep(lines: seq<string>, i: nat, embeds: string -> bool, n: nat)
    requires i < |lines| && 1 <= n <= 3 && StartsWith(lines[i], Hashes(n) + " ")
    ensures StepAt(lines, i, embeds) == Step([Heading(n, HeadingText(lines[i]))], 1)
  {
    HeadingMarkers();
    if n == 1 {
      Heading1Step(lines, i, embeds);
    } else if n == 2 {
      Heading2Step(lines, i, embeds);
    } else {
      Heading3Step(lines, i, embeds);
    }
  }

  lemma Heading1Step(lines: seq<string>, i: nat, embeds: string -> bool)
    requires i < |lines| && StartsWith(lines[i], "# ")
    ensures StepAt(lines, i, embeds) == Step([Heading(1, HeadingText(lines[i]))], 1)
  {
    HeadingMarkerFacts(lines[i]);
  }

  lemma Heading2Step(lines: seq<string>, i: nat, embeds: string -> bool)
    requires i < |lines| && StartsWith(lines[i], "## ")
    ensures StepAt(lines, i, embeds) == Step([Heading(2, HeadingText(lines[i]))], 1)
  {
    HeadingMarkerFacts(lines[i]);
  }

  lemma Heading3Step(lines: seq<string>, i: nat, embeds: string -> bool)
    requires i < |lines| && StartsWith(lines[i], "### ")
    ensures StepAt(lines, i, embeds) == Step([Heading(3, HeadingText(lines[i]))], 1)
  {
    HeadingMarkerFacts(lines[i]);
  }

  /** A table starts where the trimmed line and the trimmed next line both
      start with `|` (a heading line cannot), the separator line is skipped
      unread and the body is every following table line. */
  lemma TableLineStep(lines: seq<string>, i: nat, embeds: string -> bool)
    requires i + 1 < |lines| && IsTableLine(lines[i]) && IsTableLine(lines[i + 1])
    ensures StepAt(lines, i, embeds) == TableStep(lines, i)
  {
    assert Strip(lines[i])[..1] == "|";
    assert Strip(lines[i])[0] == '|';
    NotHeadingLine(lines[i]);
  }

  /** What a table emits: with `n` body lines, it consumes `n + 2` lines and
      emits one grid exactly when the header has a cell and `n > 0`; the grid
      has `n + 1` rows of as many columns as the header has cells, the header
      on top and each body row cut or padded to that width. */
  lemma TableOutput(lines: seq<string>, i: nat)
    requires i + 2 <= |lines|
    ensures var n := CountWhile(lines, i + 2, IsTableLine);
      var st := TableStep(lines, i);
      var header := Cells(lines[i]);
      st.consumed == n + 2 &&
      (st.blocks == [] <==> header == [] || n == 0) &&
      (st.blocks != [] ==>
        |st.blocks| == 1 && st.blocks[0].TableGrid? &&
        var g := st.blocks[0].cells;
        |g| == n + 1 && g[0] == header &&
        (forall r :: 0 <= r < |g| ==> |g[r]| == |header|) &&
        (forall r, c :: 1 <= r <= n && 0 <= c < |header| ==>
          g[r][c] == if c < |Cells(lines[i + 1 + r])| then Cells(lines[i + 1 + r])[c] else ""))
  {
    var n := CountWhile(lines, i + 2, IsTableLine);
    var header := Cells(lines[i]);
    var rows := MapLines(Cells, lines, i + 2, i + 2 + n);
    assert TableStep(lines, i) == Step(if header != [] && rows != [] then [TableGrid(Grid(header, rows))] else [], 2 + n);
    assert rows == [] <==> n == 0;
    if header != [] && rows != [] {
      TableCells(lines, i, header, rows);
    }
  }

  /** The grid built from the header and the body rows that follow the
      separator holds, in row `r`, the cells of line `i + 1 + r`. */
  lemma TableCells(lines: seq<string>, i: nat, header: seq<string>, rows: seq<seq<string>>)
    requires i + 2 <= |lines|
    requires rows == MapLines(Cells, lines, i + 2, i + 2 + CountWhile(lines, i + 2, IsTableLine))
    ensures var g := Grid(header, rows);
      |g| == |rows| + 1 && g[0] == header &&
      (forall r :: 0 <= r < |g| ==> |g[r]| == |header|) &&
      (forall r, c :: 1 <= r <= |rows| && 0 <= c < |header| ==>
        g[r][c] == if c < |Cells(lines[i + 1 + r])| then Cells(lines[i + 1 + r])[c] else "")
  {
    var n := CountWhile(lines, i + 2, IsTableLine);
    MapLinesSpec(Cells, lines, i + 2, i + 2 + n);
    var g := Grid(header, rows);
    GridSpec(header, rows);
    forall r, c | 1 <= r <= n && 0 <= c < |header|
      ensures g[r][c] == if c < |Cells(lines[i + 1 + r])| then Cells(lines[i + 1 + r])[c] else ""
    {
      assert rows[r - 1] == Cells(lines[i + 1 + r]);
    }
  }

  /** A line whose trimmed form starts with `![` consumes exactly one line: nothing is emitted when the pattern
      does not match, else the picture when `embeds` accepts the path, else
      one fallback paragraph `[이미지: description]`. Such a line cannot open
      a table, whatever follows it. */
  lemma ImageLineStep(lines: seq<string>, i: nat, embeds: string -> bool)
    requires i < |lines| && StartsWith(Strip(lines[i]), "![")
    ensures var st := StepAt(lines, i, embeds);
      st.consumed == 1 &&
      match ImageMatch(lines[i])
      case None => st.blocks == []
      case Some(m) =>
        st.blocks == [if embeds(m.path) then ImageEmbedded(m.path) else ImageFallback("[이미지: " + m.desc + "]")]
  {
    assert Strip(lines[i])[..2] == "![";
    assert Strip(lines[i])[0] == '!';
    NotHeadingLine(lines[i]);
  }

  /** A line whose trimmed form starts with `- ` or `* ` is a first-level
      bullet with its second-level bullets below it. */
  lemma BulletLineStep(lines: seq<string>, i: nat, embeds: string -> bool)
    requires i < |lines|
    requires StartsWith(Strip(lines[i]), "- ") || StartsWith(Strip(lines[i]), "* ")
    ensures StepAt(lines, i, embeds) == BulletStep(lines, i)
  {
    var t := Strip(lines[i]);
    assert t[0] == '-' || t[0] == '*' by {
      if StartsWith(t, "- ") {
        assert t[..2] == "- ";
      } else {
        assert t[..2] == "* ";
      }
    }
    assert !StartsWith(t, "|") by { assert t[..1][0] == t[0]; }
    assert !StartsWith(t, "![") by { assert t[..2][0] == t[0]; }
    NotHeadingLine(lines[i]);
  }

  /** A bullet list: one first-level bullet for the line, then one
      second-level bullet for each line directly below that starts,
      untrimmed, with `  - ` or `  * `; the first line that does not ends
      the list, and every line of the list is consumed. */
  lemma BulletOutput(lines: seq<string>, i: nat)
    requires i < |lines|
    ensures var n := CountWhile(lines, i + 1, IsSubBulletLine);
      var st := BulletStep(lines, i);
      st.consumed == n + 1 && |st.blocks| == n + 1 &&
      st.blocks[0] == Bullet(1, BulletText(lines[i])) &&
      forall k :: 1 <= k <= n ==> st.blocks[k] == Bullet(2, SubBulletText(lines[i + k]))
  {
    var n := CountWhile(lines, i + 1, IsSubBulletLine);
    var items := MapLines(SubBullet, lines, i + 1, i + 1 + n);
    assert BulletStep(lines, i).blocks == [Bullet(1, BulletText(lines[i]))] + items;
    ConsMapLines(SubBullet, lines, i + 1, i + 1 + n, Bullet(1, BulletText(lines[i])));
  }

  /** A line whose trimmed form starts with `---` and that is none of the
      earlier kinds is a rule of forty underscores. `- - -` is not one: the
      bullet test comes first. */
  lemma RuleLineStep(lines: seq<string>, i: nat, embeds: string -> bool)
    requires i < |lines| && StartsWith(Strip(lines[i]), "---")
    ensures StepAt(lines, i, embeds) == Step([Rule(RuleText)], 1)
    ensures |RuleText| == 40 && forall k :: 0 <= k < 40 ==> RuleText[k] == '_'
  {
    var t := Strip(lines[i]);
    assert t[..3] == "---";
    assert t[0] == '-' && t[1] == '-';
    NotHeadingLine(lines[i]);
    assert t[..2] != "- " by { assert t[..2][1] == '-'; }
    assert !StartsWith(t, "* ") && !StartsWith(t, "|") && !StartsWith(t, "![");
  }

  /** Every other non-blank line is a paragraph of its runs. */
  lemma ParagraphLineStep(lines: seq<string>, i: nat, embeds: string -> bool)
    requires i < |lines| && !IsBlank(lines[i])
    requires !StartsWith(lines[i], "# ") && !StartsWith(lines[i], "## ") && !StartsWith(lines[i], "### ")
    requires !(IsTableLine(lines[i]) && i + 1 < |lines| && IsTableLine(lines[i + 1]))
    requires !StartsWith(Strip(lines[i]), "![")
    requires !StartsWith(Strip(lines[i]), "- ") && !StartsWith(Strip(lines[i]), "* ")
    requires !StartsWith(Strip(lines[i]), "---")
    ensures StepAt(lines, i, embeds) == Step([Paragraph(Runs(lines[i]))], 1)
  {
  }

  /** A line that does not begin with one of the three heading markers never
      produces a heading, whatever its lookahead. */
  lemma OnlyMarkedLinesAreHeadings(lines: seq<string>, i: nat, embeds: string -> bool)
    requires i < |lines|
    requires !StartsWith(lines[i], "# ") && !StartsWith(lines[i], "## ") && !StartsWith(lines[i], "### ")
    ensures forall b :: b in StepAt(lines, i, embeds).blocks ==> !b.Heading?
  {
    var line := lines[i];
    if IsBlank(line) {
      BlankStep(lines, i, embeds);
    } else if IsTableLine(line) && i + 1 < |lines| && IsTableLine(lines[i + 1]) {
      TableLineStep(lines, i, embeds);
    } else if StartsWith(Strip(line), "![") {
      ImageLineStep(lines, i, embeds);
    } else if StartsWith(Strip(line), "- ") || StartsWith(Strip(line), "* ") {
      BulletLineStep(lines, i, embeds);
      BulletOutput(lines, i);
    } else if StartsWith(Strip(line), "---") {
      RuleLineStep(lines, i, embeds);
    } else {
      ParagraphLineStep(lines, i, embeds);
    }
  }

  /** Only a pair of table lines produces a table, and only when the header has a cell. */
  lemma TableNeedsPipes(lines: seq<string>, i: nat, embeds: string -> bool, b: Block)
    requires i < |lines| && b in StepAt(lines, i, embeds).blocks && b.TableGrid?
    ensures i + 1 < |lines| && IsTableLine(lines[i]) && IsTableLine(lines[i + 1]) && Cells(lines[i]) != []
  {
    var line := lines[i];
    if IsBlank(line) {
      BlankStep(lines, i, embeds);
    } else if StartsWith(line, "# ") {
      Heading1Step(lines, i, embeds);
    } else if StartsWith(line, "## ") {
      Heading2Step(lines, i, embeds);
    } else if StartsWith(line, "### ") {
      Heading3Step(lines, i, embeds);
    } else if IsTableLine(line) && i + 1 < |lines| && IsTableLine(lines[i + 1]) {
      TableLineStep(lines, i, embeds);
    } else if StartsWith(Strip(line), "![") {
      ImageLineStep(lines, i, embeds);
    } else if StartsWith(Strip(line), "- ") || StartsWith(Strip(line), "* ") {
      BulletLineStep(lines, i, embeds);
      BulletOutput(lines, i);
    } else if StartsWith(Strip(line), "---") {
      RuleLineStep(lines, i, embeds);
    } else {
      ParagraphLineStep(lines, i, embeds);
    }
  }

  // ---------------------------------------------------------------------------
  // Paragraph runs

  /** The Markdown a run came from: bold text between `**`, italic text between `*`. */
  function Markup(runs: seq<Run>): string {
    if runs == [] then []
    else
      var r := runs[0];
      (if r.bold then "**" + r.text + "**" else if r.italic then "*" + r.text + "*" else r.text)
      + Markup(runs[1..])
  }

  /** The markup of two run lists one after the other. */
  lemma {:induction false} MarkupAppend(a: seq<Run>, b: seq<Run>)
    ensures Markup(a + b) == Markup(a) + Markup(b)
  {
    if a == [] {
      assert a + b == b;
    } else {
      assert (a + b)[0] == a[0];
      assert (a + b)[1..] == a[1..] + b;
      MarkupAppend(a[1..], b);
    }
  }

  /** A run as the source emits it: non-empty, never both bold and italic,
      and star-free when styled. */
  predicate WellFormedRun(r: Run) {
    r.text != [] && !(r.bold && r.italic) && (r.bold || r.italic ==> '*' !in r.text)
  }

  lemma {:induction false} ItalicRunsMarkup(parts: seq<string>, j: nat)
    requires forall k :: 0 <= k < |parts| && k % 2 == 1 ==> parts[k] != [] && '*' !in parts[k]
    ensures Markup(ItalicRuns(parts, j)) == Rejoin(parts, j, 1)
    ensures forall r :: r in ItalicRuns(parts, j) ==> WellFormedRun(r) && !r.bold
    decreases |parts| - j
  {
    if j < |parts| {
      ItalicRunsMarkup(parts, j + 1);
      var head := if parts[j] == [] then [] else [Run(parts[j], false, j % 2 == 1)];
      MarkupAppend(head, ItalicRuns(parts, j + 1));
      assert Stars(1) == "*";
      if head != [] {
        assert head[1..] == [];
      }
    }
  }

  lemma {:induction false} BoldRunsMarkup(parts: seq<string>, k: nat)
    requires forall q :: 0 <= q < |parts| && q % 2 == 1 ==> parts[q] != [] && '*' !in parts[q]
    ensures Markup(BoldRuns(parts, k)) == Rejoin(parts, k, 2)
    ensures forall r :: r in BoldRuns(parts, k) ==> WellFormedRun(r)
    decreases |parts| - k
  {
    if k < |parts| {
      BoldRunsMarkup(parts, k + 1);
      var head := if k % 2 == 0 then ItalicRuns(StarSplit(parts[k], 1), 0) else [Run(parts[k], true, false)];
      MarkupAppend(head, BoldRuns(parts, k + 1));
      if k % 2 == 0 {
        StarSplitSpec(parts[k], 1);
        ItalicRunsMarkup(StarSplit(parts[k], 1), 0);
      } else {
        assert Stars(2) == "**";
        assert head[1..] == [];
      }
    }
  }

  /** Paragraph runs are non-empty, star-free when styled, never both bold
      and italic, and putting `**` back around the bold runs and `*` around
      the italic ones gives the line back exactly. */
  lemma RunsRoundTrip(line: string)
    ensures forall r :: r in Runs(line) ==> WellFormedRun(r)
    ensures Markup(Runs(line)) == line
  {
    StarSplitSpec(line, 2);
    BoldRunsMarkup(StarSplit(line, 2), 0);
  }

  /** Text with no `*` in it is one plain run: neither split finds a match. */
  lemma PlainTextRuns(line: string)
    requires line != [] && '*' !in line
    ensures Runs(line) == [Run(line, false, false)]
  {
    NoStarsNoMatch(line, 2);
    NoStarsNoMatch(line, 1);
    assert StarSplit(line, 2) == [line];
    assert StarSplit(line, 1) == [line];
    assert BoldRuns([line], 1) == [];
    assert ItalicRuns([line], 1) == [];
  }

  /** A match starts with a star, so a string without stars has none. */
  lemma NoStarsNoMatch(s: string, d: nat)
    requires d >= 1 && '*' !in s
    ensures FirstStarMatch(s, 0, d).None?
  {
    if FirstStarMatch(s, 0, d).Some? {
      FirstStarMatchAt(s, 0, d);
      StarMatchStarts(s, FirstStarMatch(s, 0, d).value, d);
      assert false;
    }
  }

  // ---------------------------------------------------------------------------
  // The whole scan

  /** A document of blank lines emits nothing. */
  lemma {:induction false} BlankLinesEmitNothing(lines: seq<string>, i: nat, embeds: string -> bool)
    requires i <= |lines|
    requires forall k :: i <= k < |lines| ==> IsBlank(lines[k])
    ensures Scan(lines, i, embeds) == []
    decreases |lines| - i
  {
    if i < |lines| {
      BlankStep(lines, i, embeds);
      BlankLinesEmitNothing(lines, i + 1, embeds);
    }
  }
}
