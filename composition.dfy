/** The scan only ever looks at the lines from its cursor up to the first
    blank line: a blank line always ends whatever a turn of the loop has
    started, so the blocks of a document are the blocks of the text before a
    blank line followed by the blocks of the text after it. */
module Composition {
  import opened Text
  import opened Markdown
  import opened Properties

  /** A blank line is neither a table line nor a second-level bullet line. */
  lemma BlankIsNoLookahead(line: string)
    requires IsBlank(line)
    ensures !IsTableLine(line) && !IsSubBulletLine(line)
  {
    StripSpec(line);
    assert !StartsWith(line, "  - ") && !StartsWith(line, "  * ") by {
      if |line| >= 4 {
        assert line[..4][2] == line[2];
      }
    }
  }

  // ---------------------------------------------------------------------------
  // Cutting the lines after a blank line

  lemma {:induction false} CountWhilePrefix(lines: seq<string>, k: nat, from: nat, p: string -> bool)
    requires from <= k < |lines| && !p(lines[k])
    ensures CountWhile(lines, from, p) == CountWhile(lines[..k], from, p)
    decreases k - from
  {
    if from < k {
      assert lines[..k][from] == lines[from];
      CountWhilePrefix(lines, k, from + 1, p);
    }
  }

  lemma MapLinesPrefix<T>(f: string -> T, lines: seq<string>, k: nat, from: nat, stop: nat)
    requires from <= stop <= k <= |lines|
    ensures MapLines(f, lines, from, stop) == MapLines(f, lines[..k], from, stop)
  {
    var a := MapLines(f, lines, from, stop);
    var b := MapLines(f, lines[..k], from, stop);
    MapLinesSpec(f, lines, from, stop);
    MapLinesSpec(f, lines[..k], from, stop);
    forall q | 0 <= q < |a| ensures a[q] == b[q] {
      assert lines[..k][from + q] == lines[from + q];
    }
  }

  lemma TableStepPrefix(lines: seq<string>, k: nat, i: nat)
    requires i + 2 <= k < |lines| && !IsTableLine(lines[k])
    ensures TableStep(lines, i) == TableStep(lines[..k], i)
  {
    assert lines[..k][i] == lines[i];
    CountWhilePrefix(lines, k, i + 2, IsTableLine);
    assert CountWhile(lines, i + 2, IsTableLine) == CountWhile(lines[..k], i + 2, IsTableLine);
    MapLinesPrefix(Cells, lines, k, i + 2, i + 2 + CountWhile(lines, i + 2, IsTableLine));
    assert MapLines(Cells, lines, i + 2, i + 2 + CountWhile(lines, i + 2, IsTableLine))
      == MapLines(Cells, lines[..k], i + 2, i + 2 + CountWhile(lines[..k], i + 2, IsTableLine));
  }

  lemma BulletStepPrefix(lines: seq<string>, k: nat, i: nat)
    requires i < k < |lines| && !IsSubBulletLine(lines[k])
    ensures BulletStep(lines, i) == BulletStep(lines[..k], i)
  {
    assert lines[..k][i] == lines[i];
    CountWhilePrefix(lines, k, i + 1, IsSubBulletLine);
    assert CountWhile(lines, i + 1, IsSubBulletLine) == CountWhile(lines[..k], i + 1, IsSubBulletLine);
    MapLinesPrefix(SubBullet, lines, k, i + 1, i + 1 + CountWhile(lines, i + 1, IsSubBulletLine));
    assert MapLines(SubBullet, lines, i + 1, i + 1 + CountWhile(lines, i + 1, IsSubBulletLine))
      == MapLines(SubBullet, lines[..k], i + 1, i + 1 + CountWhile(lines[..k], i + 1, IsSubBulletLine));
  }

  /** One turn of the loop before a blank line reads nothing from the blank
      line on, and stops at it at the latest. */
  lemma StepAtPrefix(lines: seq<string>, k: nat, i: nat, embeds: string -> bool)
    requires i < k < |lines| && IsBlank(lines[k])
    ensures StepAt(lines, i, embeds) == StepAt(lines[..k], i, embeds)
    ensures i + StepAt(lines, i, embeds).consumed <= k
  {
    assert lines[..k][i] == lines[i];
    BlankIsNoLookahead(lines[k]);
    if i + 1 < k {
      assert lines[..k][i + 1] == lines[i + 1];
    }
    if i + 2 <= k {
      TableStepPrefix(lines, k, i);
    }
    BulletStepPrefix(lines, k, i);
  }

  /** Scanning up to a blank line gives the blocks of the text before it. */
  lemma {:induction false} ScanPrefix(lines: seq<string>, k: nat, i: nat, embeds: string -> bool)
    requires i <= k < |lines| && IsBlank(lines[k])
    ensures Scan(lines, i, embeds) == Scan(lines[..k], i, embeds) + Scan(lines, k, embeds)
    decreases k - i
  {
    if i < k {
      var next := i + StepAt(lines, i, embeds).consumed;
      ScanOnce(lines, i, embeds, StepAt(lines, i, embeds).blocks, next);
      ScanPrefixStep(lines, k, i, embeds, StepAt(lines, i, embeds).blocks, next);
      ScanPrefix(lines, k, next, embeds);
      Reassociate(Scan(lines, i, embeds), StepAt(lines, i, embeds).blocks, Scan(lines, next, embeds),
        Scan(lines[..k], next, embeds), Scan(lines, k, embeds), Scan(lines[..k], i, embeds));
    } else {
      assert Scan(lines[..k], i, embeds) == [];
    }
  }

  /** The turn at `i` before a blank line is also the first turn of the scan of the text before it. */
  lemma ScanPrefixStep(lines: seq<string>, k: nat, i: nat, embeds: string -> bool, blocks: seq<Block>, next: nat)
    requires i < k < |lines| && IsBlank(lines[k])
    requires blocks == StepAt(lines, i, embeds).blocks && next == i + StepAt(lines, i, embeds).consumed
    ensures next <= k && Scan(lines[..k], i, embeds) == blocks + Scan(lines[..k], next, embeds)
  {
    StepAtPrefix(lines, k, i, embeds);
    ScanOnce(lines[..k], i, embeds, blocks, next);
  }

  /** `a + (b + c)` regrouped as `(a + b) + c`, with every part named. */
  // A helper for the solver: stated apart, with every part named, so that the caller does not unfold its terms.
  lemma Reassociate(whole: seq<Block>, a: seq<Block>, rest: seq<Block>, b: seq<Block>, c: seq<Block>, front: seq<Block>)
    requires whole == a + rest && rest == b + c && front == a + b
    ensures whole == front + c
  {
  }

  // ---------------------------------------------------------------------------
  // Dropping the lines before the cursor

  lemma {:induction false} CountWhileSuffix(lines: seq<string>, m: nat, from: nat, p: string -> bool)
    requires m <= from <= |lines|
    ensures CountWhile(lines, from, p) == CountWhile(lines[m..], from - m, p)
    decreases |lines| - from
  {
    if from < |lines| {
      assert lines[m..][from - m] == lines[from];
      CountWhileSuffix(lines, m, from + 1, p);
    }
  }

  lemma MapLinesSuffix<T>(f: string -> T, lines: seq<string>, m: nat, from: nat, stop: nat)
    requires m <= from <= stop <= |lines|
    ensures MapLines(f, lines, from, stop) == MapLines(f, lines[m..], from - m, stop - m)
  {
    var a := MapLines(f, lines, from, stop);
    var b := MapLines(f, lines[m..], from - m, stop - m);
    MapLinesSpec(f, lines, from, stop);
    MapLinesSpec(f, lines[m..], from - m, stop - m);
    forall q | 0 <= q < |a| ensures a[q] == b[q] {
      assert lines[m..][from - m + q] == lines[from + q];
    }
  }

  lemma TableStepSuffix(lines: seq<string>, m: nat, i: nat)
    requires m <= i && i + 2 <= |lines|
    ensures TableStep(lines, i) == TableStep(lines[m..], i - m)
  {
    assert lines[m..][i - m] == lines[i];
    CountWhileSuffix(lines, m, i + 2, IsTableLine);
    assert CountWhile(lines, i + 2, IsTableLine) == CountWhile(lines[m..], i - m + 2, IsTableLine);
    MapLinesSuffix(Cells, lines, m, i + 2, i + 2 + CountWhile(lines, i + 2, IsTableLine));
    assert MapLines(Cells, lines, i + 2, i + 2 + CountWhile(lines, i + 2, IsTableLine))
      == MapLines(Cells, lines[m..], i - m + 2, i - m + 2 + CountWhile(lines[m..], i - m + 2, IsTableLine));
  }

  lemma BulletStepSuffix(lines: seq<string>, m: nat, i: nat)
    requires m <= i < |lines|
    ensures BulletStep(lines, i) == BulletStep(lines[m..], i - m)
  {
    assert lines[m..][i - m] == lines[i];
    CountWhileSuffix(lines, m, i + 1, IsSubBulletLine);
    assert CountWhile(lines, i + 1, IsSubBulletLine) == CountWhile(lines[m..], i - m + 1, IsSubBulletLine);
    MapLinesSuffix(SubBullet, lines, m, i + 1, i + 1 + CountWhile(lines, i + 1, IsSubBulletLine));
    assert MapLines(SubBullet, lines, i + 1, i + 1 + CountWhile(lines, i + 1, IsSubBulletLine))
      == MapLines(SubBullet, lines[m..], i - m + 1, i - m + 1 + CountWhile(lines[m..], i - m + 1, IsSubBulletLine));
  }

  /** One turn of the loop reads nothing before its cursor. */
  lemma StepAtSuffix(lines: seq<string>, m: nat, i: nat, embeds: string -> bool)
    requires m <= i < |lines|
    ensures StepAt(lines, i, embeds) == StepAt(lines[m..], i - m, embeds)
  {
    assert lines[m..][i - m] == lines[i];
    if i + 1 < |lines| {
      assert lines[m..][i + 1 - m] == lines[i + 1];
    }
    if i + 2 <= |lines| {
      TableStepSuffix(lines, m, i);
    }
    BulletStepSuffix(lines, m, i);
  }

  // A helper for the solver: `StepAtSuffix` with the suffix and its cursor named.
  lemma StepAtSuffixNamed(lines: seq<string>, m: nat, i: nat, embeds: string -> bool, rest: seq<string>, j: nat)
    requires m <= i < |lines| && rest == lines[m..] && j == i - m
    ensures StepAt(lines, i, embeds) == StepAt(rest, j, embeds)
  {
    StepAtSuffix(lines, m, i, embeds);
  }

  /** Scanning from cursor `i` gives the same blocks as scanning `rest`,
      the lines from `m` on, from the matching cursor `j = i - m`. */
  lemma {:induction false} ScanSuffix(lines: seq<string>, m: nat, i: nat, embeds: string -> bool, rest: seq<string>, j: nat)
    requires i == m + j && i <= |lines| && rest == lines[m..]
    ensures Scan(lines, i, embeds) == Scan(rest, j, embeds)
    decreases |lines| - i
  {
    if i < |lines| {
      var next := i + StepAt(lines, i, embeds).consumed;
      var after := next - m;
      ScanSuffix(lines, m, next, embeds, rest, after);
      ScanSuffixCombine(lines, m, i, embeds, rest, j, next, after);
    } else {
      assert Scan(rest, j, embeds) == [];
    }
  }

  /** The step of `ScanSuffix`: when the scans after the turn at `i` agree,
      so do the scans from `i`. */
  lemma ScanSuffixCombine(lines: seq<string>, m: nat, i: nat, embeds: string -> bool, rest: seq<string>, j: nat,
                          next: nat, after: nat)
    requires i == m + j && i < |lines| && rest == lines[m..]
    requires next == i + StepAt(lines, i, embeds).consumed && next == m + after
    requires Scan(lines, next, embeds) == Scan(rest, after, embeds)
    ensures Scan(lines, i, embeds) == Scan(rest, j, embeds)
  {
    ScanOnce(lines, i, embeds, StepAt(lines, i, embeds).blocks, next);
    ScanSuffixStep(lines, m, i, embeds, StepAt(lines, i, embeds).blocks, next, rest, j, after);
    SameParts(Scan(lines, i, embeds), Scan(rest, j, embeds), StepAt(lines, i, embeds).blocks,
      Scan(lines, next, embeds), Scan(rest, after, embeds));
  }

  /** The turn at `i` is also the turn at `i - m` of the lines from `m` on. */
  lemma ScanSuffixStep(lines: seq<string>, m: nat, i: nat, embeds: string -> bool, blocks: seq<Block>, next: nat,
                        rest: seq<string>, j: nat, after: nat)
    requires m <= i < |lines| && rest == lines[m..] && j == i - m && after == next - m
    requires blocks == StepAt(lines, i, embeds).blocks && next == i + StepAt(lines, i, embeds).consumed
    ensures m <= next <= |lines| && Scan(rest, j, embeds) == blocks + Scan(rest, after, embeds)
  {
    StepAtSuffixNamed(lines, m, i, embeds, rest, j);
    ScanOnce(rest, j, embeds, blocks, after);
  }

  /** Two sequences made of equal parts are equal. */
  // A helper for the solver: stated apart, with every part named, so that the caller does not unfold its terms.
  lemma SameParts(x: seq<Block>, y: seq<Block>, a: seq<Block>, r: seq<Block>, s: seq<Block>)
    requires x == a + r && y == a + s && r == s
    ensures x == y
  {
  }

  // ---------------------------------------------------------------------------
  // Documents

  /** A blank line separates a document into two that are converted one
      after the other: the blocks of the whole are the blocks of the lines
      before it followed by the blocks of the lines after it. */
  lemma DocumentSplit(lines: seq<string>, k: nat, embeds: string -> bool)
    requires k < |lines| && IsBlank(lines[k])
    ensures Document(lines, embeds) == Document(lines[..k], embeds) + Document(lines[k + 1..], embeds)
  {
    ScanPrefix(lines, k, 0, embeds);
    ScanAfterBlank(lines, k, embeds);
    AppendSame(Scan(lines, 0, embeds), Scan(lines[..k], 0, embeds), Scan(lines, k, embeds), Scan(lines[k + 1..], 0, embeds));
  }

  /** The scan from a blank line is the scan of the lines after it. */
  lemma ScanAfterBlank(lines: seq<string>, k: nat, embeds: string -> bool)
    requires k < |lines| && IsBlank(lines[k])
    ensures Scan(lines, k, embeds) == Scan(lines[k + 1..], 0, embeds)
  {
    BlankStep(lines, k, embeds);
    ScanOnce(lines, k, embeds, [], k + 1);
    ScanSuffix(lines, k + 1, k + 1, embeds, lines[k + 1..], 0);
    NothingFirst(Scan(lines, k, embeds), Scan(lines, k + 1, embeds), Scan(lines[k + 1..], 0, embeds));
  }

  /** `whole == [] + rest` and `rest == back` give `whole == back`. */
  // A helper for the solver: stated apart, with every part named, so that the caller does not unfold its terms.
  lemma NothingFirst(whole: seq<Block>, rest: seq<Block>, back: seq<Block>)
    requires whole == [] + rest && rest == back
    ensures whole == back
  {
  }

  /** `whole == front + mid` and `mid == back` give `whole == front + back`. */
  // A helper for the solver: stated apart, with every part named, so that the caller does not unfold its terms.
  lemma AppendSame(whole: seq<Block>, front: seq<Block>, mid: seq<Block>, back: seq<Block>)
    requires whole == front + mid && mid == back
    ensures whole == front + back
  {
  }

  /** Putting a blank line between two documents converts them one after the other. */
  lemma DocumentConcat(a: seq<string>, blank: string, b: seq<string>, embeds: string -> bool)
    requires IsBlank(blank)
    ensures Document(a + [blank] + b, embeds) == Document(a, embeds) + Document(b, embeds)
  {
    var lines := a + [blank] + b;
    assert lines[|a|] == blank;
    assert lines[..|a|] == a;
    assert lines[|a| + 1..] == b;
    DocumentSplit(lines, |a|, embeds);
  }
}
