/** Concrete lines: what one turn of the scan makes of them, and the runs of a paragraph. */
module Samples {
  import opened Text
  import opened Patterns
  import opened Markdown
  import opened Properties

  /** `- - -` is taken by the bullet test before the rule test sees it, and
      `lstrip('- *')` leaves nothing of it. */
  lemma DashesAreABullet(embeds: string -> bool)
    ensures StepAt(["- - -"], 0, embeds) == Step([Bullet(1, "")], 1)
  {
    var line := "- - -";
    assert TrimStart(line, Whitespace) == line by { assert !IsSpace('-'); }
    assert TrimEnd(line, Whitespace) == line;
    assert Strip(line) == line;
    assert StartsWith(Strip(line), "- ");
    BulletLineStep(["- - -"], 0, embeds);
    assert TrimStart(line, BulletMarks) == [];
  }

  /** `lstrip('# ')` removes every hash and space at the front, not only the marker. */
  lemma HashesInsideHeadingAreDropped(embeds: string -> bool)
    ensures StepAt(["# # x"], 0, embeds) == Step([Heading(1, "x")], 1)
  {
    HeadingTextOfHashes();
    Heading1Step(["# # x"], 0, embeds);
  }

  lemma HeadingTextOfHashes()
    ensures StartsWith("# # x", "# ") && HeadingText("# # x") == "x"
  {
    assert TrimStart("# # x", HeadingMarks) == "x";
    assert Strip("x") == "x" by { assert !IsSpace('x'); }
  }

  /** Four hashes with no space after them are not a heading: the line is
      ordinary text. */
  lemma FourHashesIsParagraph(embeds: string -> bool)
    ensures StepAt(["####x"], 0, embeds) == Step([Paragraph([Run("####x", false, false)])], 1)
  {
    var line := "####x";
    assert Strip(line) == line by { assert !IsSpace('#'); assert !IsSpace('x'); }
    assert line[1] == '#' && line[2] == '#' && line[3] == '#';
    assert line[..2] != "# " && line[..3] != "## " && line[..4] != "### ";
    assert !IsTableLine(line);
    ParagraphLineStep(["####x"], 0, embeds);
    PlainTextRuns(line);
  }

  /** `lstrip('- *')` also eats the stars that open bold text. */
  lemma BoldBulletKeepsClosingStars(embeds: string -> bool)
    ensures StepAt(["- **x**"], 0, embeds) == Step([Bullet(1, "x**")], 1)
  {
    BoldBulletTexts();
    BulletLineStep(["- **x**"], 0, embeds);
  }

  lemma BoldBulletTexts()
    ensures StartsWith(Strip("- **x**"), "- ") && BulletText("- **x**") == "x**"
  {
    var line := "- **x**";
    assert TrimStart(line, Whitespace) == line by { assert !IsSpace('-'); }
    assert TrimEnd(line, Whitespace) == line by { assert !IsSpace('*'); }
    assert TrimStart(line, BulletMarks) == "x**";
    assert TrimStart("x**", Whitespace) == "x**" by { assert !IsSpace('x'); }
    assert TrimEnd("x**", Whitespace) == "x**";
  }

  /** The header row lacks nothing, the body row lacks its second cell and
      is padded; the separator line is never read. */
  lemma SmallTable(embeds: string -> bool)
    ensures StepAt(["|a|b|", "|-|-|", "|1|", "end"], 0, embeds)
      == Step([TableGrid([["a", "b"], ["1", ""]])], 3)
  {
    var lines := ["|a|b|", "|-|-|", "|1|", "end"];
    SmallTableLines();
    TableLineStep(lines, 0, embeds);
    CountWhileExact(lines, 2, IsTableLine, 1);
    SmallTableCells();
    assert MapLines(Cells, lines, 2, 3) == [["1"]];
    SmallTableGrid();
  }

  lemma SmallTableLines()
    ensures IsTableLine("|a|b|") && IsTableLine("|-|-|") && IsTableLine("|1|") && !IsTableLine("end")
  {
    assert Strip("|a|b|") == "|a|b|" by { assert !IsSpace('|'); }
    assert Strip("|-|-|") == "|-|-|" by { assert !IsSpace('|'); }
    assert Strip("|1|") == "|1|" by { assert !IsSpace('|'); }
    assert Strip("end") == "end" by { assert !IsSpace('e'); assert !IsSpace('d'); }
  }

  lemma SmallTableCells()
    ensures Cells("|a|b|") == ["a", "b"] && Cells("|1|") == ["1"]
  {
    SmallTableFields();
    assert Strip("a") == "a" by { assert !IsSpace('a'); }
    assert Strip("b") == "b" by { assert !IsSpace('b'); }
    assert Strip("1") == "1" by { assert !IsSpace('1'); }
    assert ["", "a", "b", ""][1..3] == ["a", "b"];
    assert StripAll(["b"]) == ["b"];
    assert StripAll(["a", "b"]) == ["a", "b"];
    assert ["", "1", ""][1..2] == ["1"];
    assert StripAll(["1"]) == ["1"];
  }

  lemma SmallTableFields()
    ensures SplitOn("|a|b|", '|') == ["", "a", "b", ""] && SplitOn("|1|", '|') == ["", "1", ""]
  {
    SplitOnBar("", [""]);
    assert ['|'] + "" == "|";
    assert ['b'] + "" == "b";
    SplitOnStart('b', "|", ["", ""]);
    assert ['b'] + "|" == "b|" && ["b"] + [""] == ["b", ""];
    SplitOnBar("b|", ["b", ""]);
    assert ['|'] + "b|" == "|b|";
    assert ['a'] + "" == "a";
    SplitOnStart('a', "|b|", ["", "b", ""]);
    assert ['a'] + "|b|" == "a|b|" && ["a"] + ["b", ""] == ["a", "b", ""];
    SplitOnBar("a|b|", ["a", "b", ""]);
    assert ['|'] + "a|b|" == "|a|b|";
    assert ['1'] + "" == "1";
    SplitOnStart('1', "|", ["", ""]);
    assert ['1'] + "|" == "1|" && ["1"] + [""] == ["1", ""];
    SplitOnBar("1|", ["1", ""]);
    assert ['|'] + "1|" == "|1|";
  }

  /** One step of `split` on a character that is not the separator. */
  lemma SplitOnStart(c: char, t: string, fields: seq<string>)
    requires c != '|' && fields == SplitOn(t, '|')
    ensures SplitOn([c] + t, '|') == [[c] + fields[0]] + fields[1..]
  {
    assert ([c] + t)[1..] == t;
  }

  /** One step of `split` on the separator itself. */
  lemma SplitOnBar(t: string, fields: seq<string>)
    requires fields == SplitOn(t, '|')
    ensures SplitOn(['|'] + t, '|') == [[]] + fields
  {
    assert (['|'] + t)[1..] == t;
  }

  lemma SmallTableGrid()
    ensures Grid(["a", "b"], [["1"]]) == [["a", "b"], ["1", ""]]
  {
    assert FitRow(["1"], 2) == ["1", ""];
  }

  /** Bold is split off first, then italic inside the plain parts; empty
      parts add no run. */
  // The line is a parameter fixed by `requires` so that the solver does not unfold every function on the literal.
  lemma BoldThenItalic(line: string)
    requires line == "**x** *y* z"
    ensures Runs(line)
      == [Run("x", true, false), Run(" ", false, false), Run("y", false, true), Run(" z", false, false)]
  {
    SampleBoldSplit();
    var parts := StarSplit(line, 2);
    assert parts == ["", "x", " *y* z"];
    SampleItalicSplit();
    SampleItalicRuns();
    NoStarsNoMatch("", 1);
    assert StarSplit(parts[0], 1) == [""];
    var last := [Run(" ", false, false), Run("y", false, true), Run(" z", false, false)];
    var whole := [Run("x", true, false), Run(" ", false, false), Run("y", false, true), Run(" z", false, false)];
    SampleRunList(last, whole);
    ThreeParts(parts, [""], "x", last, whole);
    assert Runs(line) == BoldRuns(parts, 0);
  }

  /** Text, one bold group, text: the bold run sits between the runs of the two texts. */
  lemma ThreeParts(parts: seq<string>, first: seq<string>, bold: string, last: seq<Run>, whole: seq<Run>)
    requires |parts| == 3 && StarSplit(parts[0], 1) == first && ItalicRuns(first, 0) == []
    requires parts[1] == bold && ItalicRuns(StarSplit(parts[2], 1), 0) == last
    requires whole == [Run(bold, true, false)] + last
    ensures BoldRuns(parts, 0) == whole
  {
    assert BoldRuns(parts, 3) == [];
    assert BoldRuns(parts, 2) == last;
  }

  lemma SampleRunList(last: seq<Run>, whole: seq<Run>)
    requires last == [Run(" ", false, false), Run("y", false, true), Run(" z", false, false)]
    requires whole == [Run("x", true, false), Run(" ", false, false), Run("y", false, true), Run(" z", false, false)]
    ensures whole == [Run("x", true, false)] + last
  {
  }

  lemma SampleItalicRuns()
    ensures ItalicRuns([" ", "y", " z"], 0) == [Run(" ", false, false), Run("y", false, true), Run(" z", false, false)]
  {
    var parts := [" ", "y", " z"];
    assert ItalicRuns(parts, 2) == [Run(" z", false, false)];
    assert ItalicRuns(parts, 1) == [Run("y", false, true), Run(" z", false, false)];
  }

  /** `re.split(r'\*\*([^*]+)\*\*', "**x** *y* z")`. */
  lemma SampleBoldSplit()
    ensures StarSplit("**x** *y* z", 2) == ["", "x", " *y* z"]
  {
    var s := "**x** *y* z";
    SampleBoldMatch();
    NoStarPair(" *y* z");
    assert StarSplit(" *y* z", 2) == [" *y* z"];
    SplitAt(s, 2, 0, "", "x", " *y* z", [" *y* z"]);
  }

  lemma SampleBoldMatch()
    ensures StarMatchAt("**x** *y* z", 0, 2) && RunWithout("**x** *y* z", 2, '*') == 1
    ensures FirstStarMatch("**x** *y* z", 0, 2) == Some(0)
    ensures "**x** *y* z"[..0] == "" && StarGroup("**x** *y* z", 0, 2) == "x"
    ensures "**x** *y* z"[0 + 2 * 2 + RunWithout("**x** *y* z", 0 + 2, '*')..] == " *y* z"
  {
    var s := "**x** *y* z";
    assert Stars(2) == "**";
    RunWithoutExact(s, 2, '*', 1);
    assert s[0..2] == Stars(2);
    assert s[3..5] == Stars(2);
  }

  /** `re.split(r'\*([^*]+)\*', " *y* z")`. */
  lemma SampleItalicSplit()
    ensures StarSplit(" *y* z", 1) == [" ", "y", " z"]
  {
    var t := " *y* z";
    SampleItalicMatch();
    NoStarsNoMatch(" z", 1);
    assert StarSplit(" z", 1) == [" z"];
    SplitAt(t, 1, 1, " ", "y", " z", [" z"]);
  }

  lemma SampleItalicMatch()
    ensures StarMatchAt(" *y* z", 1, 1) && RunWithout(" *y* z", 2, '*') == 1
    ensures FirstStarMatch(" *y* z", 0, 1) == Some(1)
    ensures " *y* z"[..1] == " " && StarGroup(" *y* z", 1, 1) == "y"
    ensures " *y* z"[1 + 2 * 1 + RunWithout(" *y* z", 1 + 1, '*')..] == " z"
  {
    var t := " *y* z";
    assert Stars(1) == "*";
    assert !StarMatchAt(t, 0, 1) by { assert t[0..1][0] == ' '; }
    RunWithoutExact(t, 2, '*', 1);
    assert t[1..2] == Stars(1);
    assert t[3..4] == Stars(1);
  }

  /** The split at the leftmost match, with every piece named. */
  lemma SplitAt(s: string, d: nat, a: nat, before: string, g: string, tail: string, rest: seq<string>)
    requires d >= 1 && a <= |s| && StarMatchAt(s, a, d) && FirstStarMatch(s, 0, d) == Some(a)
    requires before == s[..a] && g == StarGroup(s, a, d) && tail == s[a + 2 * d + RunWithout(s, a + d, '*')..]
    requires rest == StarSplit(tail, d)
    ensures StarSplit(s, d) == [before, g] + rest
  {
    StarSplitCons(s, d, a);
  }

  /** A bold match needs two stars in a row. */
  lemma NoStarPair(t: string)
    requires forall k :: 0 <= k < |t| - 1 ==> t[k] != '*' || t[k + 1] != '*'
    ensures FirstStarMatch(t, 0, 2).None?
  {
    if FirstStarMatch(t, 0, 2).Some? {
      FirstStarMatchAt(t, 0, 2);
      StarPairAt(t, FirstStarMatch(t, 0, 2).value);
      assert false;
    }
  }

  lemma StarPairAt(t: string, a: nat)
    requires StarMatchAt(t, a, 2)
    ensures a + 1 < |t| && t[a] == '*' && t[a + 1] == '*'
  {
    assert t[a..a + 2] == Stars(2) == "**";
    assert t[a] == t[a..a + 2][0] && t[a + 1] == t[a..a + 2][1];
  }

  /** An image line the pattern does not match emits nothing at all: no
      image and no fallback paragraph. */
  lemma BrokenImageEmitsNothing(embeds: string -> bool)
    ensures StepAt(["![x]"], 0, embeds) == Step([], 1)
  {
    var line := "![x]";
    assert Strip(line) == line by { assert !IsSpace('!'); assert !IsSpace(']'); }
    assert StartsWith(Strip(line), "![");
    NoImageWithoutParen(line);
    ImageLineStep(["![x]"], 0, embeds);
  }

  /** The pattern needs `](`, so a line without `(` has no match. */
  lemma NoImageWithoutParen(line: string)
    requires '(' !in line
    ensures ImageMatch(line).None?
  {
    ImageMatchSpec(line);
    if ImageMatch(line).Some? {
      var r := ImageMatch(line).value;
      ParenInImage(line, r.start, r.desc, r.path);
      assert false;
    }
  }

  lemma ParenInImage(s: string, a: nat, desc: string, path: string)
    requires IsImageMatch(s, a, desc, path)
    ensures '(' in s
  {
    var q := a + 2 + |desc|;
    assert s[q + 1] == s[q..q + 2][1] == '(';
  }

  /** A picture whose file cannot be embedded becomes the bracketed
      description. */
  // The line is a parameter fixed by `requires` so that the solver does not unfold every function on the literal.
  lemma MissingImageFallback(line: string, embeds: string -> bool)
    requires line == "![photo](x.png)" && !embeds("x.png")
    ensures StepAt([line], 0, embeds) == Step([ImageFallback("[이미지: photo]")], 1)
  {
    PhotoMatch(line);
    assert Strip(line) == line by { assert !IsSpace('!'); assert !IsSpace(')'); }
    assert StartsWith(Strip(line), "![");
    ImageLineStep([line], 0, embeds);
    assert "[이미지: " + "photo" + "]" == "[이미지: photo]";
  }

  lemma PhotoMatch(line: string)
    requires line == "![photo](x.png)"
    ensures ImageMatch(line) == Some(ImageRef(0, "photo", "x.png"))
  {
    assert IsImageMatch(line, 0, "photo", "x.png") by {
      assert line[0..2] == "![" && line[2..7] == "photo" && line[7..9] == "](";
      assert line[9..14] == "x.png" && line[14] == ')';
      assert ']' !in "photo" && ')' !in "x.png";
    }
    ImageAtExact(line, 0, "photo", "x.png");
  }

  /** A header and a separator with no body row: both lines are consumed,
      no table is added. */
  lemma HeaderOnlyTable(embeds: string -> bool)
    ensures StepAt(["|a|", "|-|", "end"], 0, embeds) == Step([], 2)
  {
    var lines := ["|a|", "|-|", "end"];
    assert Strip("|a|") == "|a|" by { assert !IsSpace('|'); }
    assert Strip("|-|") == "|-|" by { assert !IsSpace('|'); }
    assert Strip("end") == "end" by { assert !IsSpace('e'); assert !IsSpace('d'); }
    assert IsTableLine(lines[0]) && IsTableLine(lines[1]) && !IsTableLine(lines[2]);
    TableLineStep(lines, 0, embeds);
    CountWhileExact(lines, 2, IsTableLine, 0);
    TableOutput(lines, 0);
  }
}
