# Markdown to DOCX line converter, modelled in Dafny

`convert_markdown_to_docx` splits a Markdown text into lines and walks them
with a cursor. Each turn of the loop classifies the line at the cursor, in
this order:

- blank;
- heading `# `, `## ` or `### `;
- table (this line and the next both start with `|` once trimmed);
- image (`![`);
- bullet (`- ` or `* `);
- rule (`---`);
- otherwise paragraph.

Each kind calls the document library (`add_heading`, `add_table`,
`add_picture`, `add_paragraph`, `add_run`) and moves the cursor past the
lines it used. Tables read their body rows ahead, and bullets read their
second-level bullets ahead.

This project models that loop. Each library call becomes a `Block` value
appended to the output sequence `doc`, and the proofs cover which blocks
come out, and in what order, for every input.

- `Text` holds the Python string operations the loop uses: `strip`,
  `lstrip(chars)`, `startswith` and `split`.
- `Patterns` implements the three regular expressions as leftmost scanners.
  Each scanner is proved equal to a declarative description of a match.
- `Markdown` specifies one turn of the loop (`StepAt`) and the whole scan
  (`Scan`, `Document`) as functions.
- `Converter` is the imperative form: the outer `while` loop, the inner
  loops for table rows and sub-bullets, the nested loops that fill the
  table cells, and the loops over the bold and italic parts of a paragraph.
  Each method is proved to compute the function that specifies it.
- `Properties` proves the following:
  - how each kind of line is classified;
  - the three heading markers exclude one another;
  - what a table, an image and a bullet list emit;
  - paragraph runs give the line back.
- `Composition` proves that a blank line splits a document into two
  documents that are converted independently, one after the other.
- `Samples` works out concrete lines, including the quirks of
  `lstrip(chars)`.

Whether a picture can be embedded (the file exists and `add_picture` does
not raise) is a parameter `embeds: string -> bool`. It is applied to the
path the Markdown names.

What the code does at three points where a reader might expect otherwise:

- An image line that the image pattern does not match emits nothing: no
  picture and no fallback paragraph (`Properties.ImageLineStep`,
  `Samples.BrokenImageEmitsNothing`).
- A table is a grid as wide as its header. Body rows longer than the header
  are cut, and shorter ones are padded with empty cells (`Markdown.Grid`,
  `Properties.TableOutput`).
- The image base directory is fixed in the code. The model folds it into the
  `embeds` parameter.

## Model

| member | source | states |
|---|---|---|
| Text.TrimStartSpec | convert_md_to_docx.py:39 | `lstrip(chars)` leaves a suffix of the line; everything it dropped is in the set, and what it leaves does not start with a character of the set |
| Text.TrimEndSpec | convert_md_to_docx.py:33 | the right half of `strip()` leaves a prefix; everything dropped is whitespace, and what remains does not end with whitespace |
| Text.StripSpec | convert_md_to_docx.py:33 | `strip()` leaves a slice of the line, starting where `lstrip()` stops. The result is empty exactly when the line is all whitespace (the blank-line test). Otherwise the result starts and ends with non-whitespace, and it keeps the first character when the line does not start with whitespace |
| Text.SplitOnJoin | convert_md_to_docx.py:26 | joining the fields of `split('\n')` with the separator gives the text back |
| Text.SplitOnCount | convert_md_to_docx.py:65 | splitting on the pipe character yields one field more than there are pipes |
| Text.SplitOnFields | convert_md_to_docx.py:65 | no field of the split on the pipe character contains a pipe |
| Patterns.RunWithoutSpec | convert_md_to_docx.py:158 | the greedy `[^*]+` run holds no star and ends at a star or at the end of the text |
| Patterns.StarMatchAtExact | convert_md_to_docx.py:158 | an attempt of `\*{d}([^*]+)\*{d}` at a position succeeds exactly when the text there is `d` stars, a non-empty star-free group and `d` stars; the group it captures is that group |
| Patterns.StarMatchStarts | convert_md_to_docx.py:158 | a successful attempt starts on a star |
| Patterns.FirstStarMatchAt | convert_md_to_docx.py:159 | the position the search returns lies in range, and an attempt there succeeds |
| Patterns.FirstStarMatchNone | convert_md_to_docx.py:159 | the search returns nothing only when no attempt from its start on succeeds |
| Patterns.FirstStarMatchIs | convert_md_to_docx.py:159 | conversely, an attempt that succeeds with no earlier success is the position the search returns |
| Patterns.FirstStarMatchAbsent | convert_md_to_docx.py:159 | conversely, when no attempt from the start on succeeds, the search returns nothing |
| Patterns.StarSplitSpec | convert_md_to_docx.py:158-159 | `re.split` of the bold or italic pattern alternates text and groups, starting and ending with text. Groups are non-empty and star-free. No text part holds a match, and no attempt starting inside a text part succeeds, so every match is the leftmost one. Re-wrapping each group in its stars gives the text back |
| Patterns.StarSplitUnique | convert_md_to_docx.py:158-159 | any list of parts with that shape for a text is exactly what `re.split` returns for it, so the shape pins the split down |
| Patterns.NoStarMatch | convert_md_to_docx.py:164-165 | when the scanner finds no match, the text holds none |
| Patterns.ImageAtExact | convert_md_to_docx.py:103 | the attempt of the image pattern at a position succeeds exactly on a declarative `![desc](path)` match there (no `]` in desc, a non-empty path free of `)`), with that desc and path |
| Patterns.ImageSearchSpec | convert_md_to_docx.py:103 | `re.search` returns the first position from its start at which an attempt succeeds, and no earlier attempt succeeds |
| Patterns.ImageMatchSpec | convert_md_to_docx.py:103-106 | the match found is the leftmost `![desc](path)` in the line. There is no match exactly when the line holds none |
| Markdown.StripAllSpec | convert_md_to_docx.py:65 | every cell is its field stripped |
| Markdown.CellsSpec | convert_md_to_docx.py:65 | a line with pipes has one cell fewer than it has pipes, a line without one has no cells, and no cell holds a pipe |
| Markdown.FitRowSpec | convert_md_to_docx.py:93-97 | a body row placed in a table `width` columns wide keeps the cells that fit and leaves the columns past its end empty |
| Markdown.GridSpec | convert_md_to_docx.py:79-97 | the table has one more row than there are body rows, every row has the header's width, row 0 is the header, and row `r` holds body row `r - 1` cut or padded to that width |
| Markdown.CountWhileSpec | convert_md_to_docx.py:72 | every line the lookahead passes satisfies the test, and it stops at the first line that does not, or at the end |
| Markdown.MapLinesSpec | convert_md_to_docx.py:73-74 | entry `k` of the collected list is the line `from + k` converted |
| Markdown.StepAt | convert_md_to_docx.py:29-179 | every turn of the loop consumes at least one line and never runs past the end, so the cursor strictly increases |
| Properties.CountWhileExact | convert_md_to_docx.py:72-75 | the lookahead count is exactly the number of leading lines that pass the test |
| Properties.HeadingMarkerFacts | convert_md_to_docx.py:38-60 | a line that starts with `## ` does not start with `# `. One that starts with `### ` starts with neither. A heading line is not blank and begins with `#` once trimmed |
| Properties.BlankStep | convert_md_to_docx.py:33-35 | a blank line emits nothing and consumes one line |
| Properties.HeadingStep | convert_md_to_docx.py:38-60 | a line starting with `n` hashes and a space (`n` in 1..3) emits one heading of level `n` with the text `lstrip('# ').strip()` and consumes one line |
| Properties.Heading1Step | convert_md_to_docx.py:38-44 | a `# ` line is a level-1 heading |
| Properties.Heading2Step | convert_md_to_docx.py:46-52 | a `## ` line is a level-2 heading |
| Properties.Heading3Step | convert_md_to_docx.py:54-60 | a `### ` line is a level-3 heading |
| Properties.OnlyMarkedLinesAreHeadings | convert_md_to_docx.py:38-60 | a line that does not start with one of the three markers never yields a heading, whatever it is otherwise |
| Properties.TableLineStep | convert_md_to_docx.py:63 | a line that starts with a pipe once trimmed, followed by another such line, starts a table (such a line is never a heading) |
| Properties.TableOutput | convert_md_to_docx.py:63-99 | with `n` body lines, a table consumes `n + 2` lines. It emits a grid exactly when the header has a cell and `n > 0`. The grid has `n + 1` rows of the header's width: the header on top, then the cells of each body line, cut or padded |
| Properties.TableCells | convert_md_to_docx.py:72-97 | row `r` of the grid holds the cells of line `i + 1 + r`, cut or padded to the header's width |
| Properties.TableNeedsPipes | convert_md_to_docx.py:63-78 | a table is emitted only for two consecutive table lines whose first has at least one cell |
| Properties.ImageLineStep | convert_md_to_docx.py:102-123 | an image line consumes one line. It emits nothing when the pattern does not match. Otherwise it emits the picture when it can be embedded, and else the paragraph `[이미지: desc]` |
| Properties.BulletLineStep | convert_md_to_docx.py:126 | a line that starts with `- ` or `* ` once trimmed is a bullet list; no earlier test takes it |
| Properties.BulletOutput | convert_md_to_docx.py:126-140 | a bullet list emits one level-1 bullet with the `lstrip('- *').strip()` text. It then emits one level-2 bullet for each following line that starts, untrimmed, with `  - ` or `  * `, stops at the first line that does not, and consumes exactly those lines |
| Properties.RuleLineStep | convert_md_to_docx.py:143-146 | a line that starts with `---` once trimmed is never any earlier kind. It emits a rule of exactly forty underscores and consumes one line |
| Properties.ParagraphLineStep | convert_md_to_docx.py:149-179 | every other non-blank line emits one paragraph of its runs and consumes one line |
| Properties.ItalicRunsMarkup | convert_md_to_docx.py:167-174 | the runs of an italic split are non-empty and never bold, and their markup is the split rejoined |
| Properties.BoldRunsMarkup | convert_md_to_docx.py:161-177 | the runs of a bold split are well formed, and their markup is the split rejoined |
| Properties.RunsRoundTrip | convert_md_to_docx.py:155-177 | every paragraph run is non-empty and never both bold and italic, and styled runs hold no star. Wrapping bold runs in `**` and italic runs in `*` gives the line back exactly |
| Properties.PlainTextRuns | convert_md_to_docx.py:155-177 | a non-empty line without a star is a single plain run |
| Properties.NoStarsNoMatch | convert_md_to_docx.py:159 | neither pattern matches a text without a star |
| Properties.BlankLinesEmitNothing | convert_md_to_docx.py:29-35 | a run of blank lines emits nothing |
| Converter.Convert | convert_md_to_docx.py:26-179 | the `while` loop over `split('\n')` appends exactly the blocks of `Document` |
| Converter.ConvertLine | convert_md_to_docx.py:30-179 | one turn of the loop emits the blocks of `StepAt` and leaves the cursor where it says |
| Converter.TableBlocks | convert_md_to_docx.py:63-99 | the table branch emits the blocks of `TableStep` and moves the cursor past the table |
| Converter.TableBody | convert_md_to_docx.py:71-75 | the row loop collects the cells of each table line from the cursor on and stops at the first other line |
| Converter.FillGrid | convert_md_to_docx.py:78-97 | the cell-filling loops leave the table holding `Grid(header, rows)` |
| Converter.ImageBlocks | convert_md_to_docx.py:102-123 | the image branch emits the blocks of `ImageStep` |
| Converter.BulletBlocks | convert_md_to_docx.py:126-140 | the bullet branch emits the blocks of `BulletStep` and moves the cursor past the list |
| Converter.SubBulletItems | convert_md_to_docx.py:134-139 | the sub-bullet loop adds one level-2 bullet per `  - ` / `  * ` line and stops at the first other line |
| Converter.ParagraphRuns | convert_md_to_docx.py:155-177 | the loops over the bold parts, and inside them over the italic parts, add exactly `Runs(line)` |
| Converter.PartRuns | convert_md_to_docx.py:162-177 | one part of the bold split adds its italic runs if it is text, or one bold run if it is a group |
| Converter.ItalicPartRuns | convert_md_to_docx.py:167-174 | the inner loop adds a plain run for each non-empty text part and an italic run for each group |
| Composition.BlankIsNoLookahead | convert_md_to_docx.py:72 | a blank line is neither a table line nor a second-level bullet line, so every lookahead stops at it |
| Composition.StepAtPrefix | convert_md_to_docx.py:63-140 | a turn of the loop that starts before a blank line reads nothing from the blank line on, and stops at or before it |
| Composition.StepAtSuffix | convert_md_to_docx.py:29-179 | a turn of the loop reads nothing before its cursor |
| Composition.ScanPrefix | convert_md_to_docx.py:29-179 | scanning up to a blank line gives the blocks of the text before it, followed by the scan from the blank line |
| Composition.ScanSuffix | convert_md_to_docx.py:29-179 | scanning from cursor `m + j` gives the same blocks as scanning the lines from `m` on from cursor `j` |
| Composition.ScanAfterBlank | convert_md_to_docx.py:33-35 | the scan from a blank line is the conversion of the lines after it |
| Composition.DocumentSplit | convert_md_to_docx.py:29-179 | a document converts to the conversion of the text before any blank line, followed by the conversion of the text after it |
| Composition.DocumentConcat | convert_md_to_docx.py:29-179 | two texts joined by a blank line convert to their two conversions, in order |
| Samples.DashesAreABullet | convert_md_to_docx.py:126-146 | `- - -` is a bullet with empty text, not a rule |
| Samples.HashesInsideHeadingAreDropped | convert_md_to_docx.py:38-39 | `# # x` is a level-1 heading `x`: `lstrip('# ')` removes every leading hash and space |
| Samples.FourHashesIsParagraph | convert_md_to_docx.py:38-60 | `####x` is no heading but a paragraph of one plain run |
| Samples.BoldBulletKeepsClosingStars | convert_md_to_docx.py:127 | the bullet `- **x**` has the text `x**`: `lstrip('- *')` eats the opening stars but not the closing ones |
| Samples.SmallTable | convert_md_to_docx.py:63-97 | a header with cells a and b, a separator, a body line with the single cell 1, then a non-table line: one table whose rows are (a, b) and (1, empty), three lines consumed |
| Samples.HeaderOnlyTable | convert_md_to_docx.py:63-78 | a header and separator with no body row consume two lines and emit nothing |
| Samples.BoldThenItalic | convert_md_to_docx.py:155-177 | `**x** *y* z` gives the runs bold `x`, plain ` `, italic `y`, plain ` z` |
| Samples.BrokenImageEmitsNothing | convert_md_to_docx.py:102-123 | `![x]` consumes its line and emits nothing |
| Samples.MissingImageFallback | convert_md_to_docx.py:109-121 | `![photo](x.png)` whose file cannot be embedded emits the paragraph `[이미지: photo]` |

## Left out

- Reading the Markdown file and saving the document (lines 10-14, 182-183) and the `__main__` block (185-196): file I/O.
- Every formatting call:
  - the Normal style (20-23);
  - heading spacing (41-42, 49-50, 57-58);
  - the table style (80) and bold header runs (88-90);
  - picture width and centring (112-114);
  - indents (118, 121, 129-130, 137-138);
  - paragraph spacing (152).
  These set layout properties of objects that the model reduces to their text; they do not change which blocks are emitted.
- The file-existence test, `add_picture` and its exception handler (109-118) are the single parameter `embeds(path)`. The fixed base directory `/workspaces/icb_slide3` is folded into that parameter. The model cannot tell a missing file from a picture that fails to load: both give the fallback, as in the source.
- The `doc` object of the document library is not modelled as a class. The library is a foreign component, so the converter's only effect on it is modelled as appending blocks to a sequence, in call order.
- Every run flag the source leaves unset (None) is `false` in the model: `bold` on plain and italic runs, and `italic` on plain and bold runs. An unset flag renders the same as `false`.
- Python's general regular-expression engine is not modelled. Only the three fixed patterns the converter uses are, as scanners proved equal to their match descriptions.
- Whitespace is the character set of Python's `str.isspace`. Unicode normalisation and the encoding of the file are not modelled.
