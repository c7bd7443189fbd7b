/** The three fixed regular expressions of the converter, written as
    leftmost scanners: `\*\*([^*]+)\*\*` (bold), `\*([^*]+)\*` (italic) and
    `!\[([^\]]*)\]\(([^\)]+)\)` (image). Each scanner is tied to a
    declarative description of a match, so that what `re.search` and
    `re.split` return is stated without reference to the scanning order. */
module Patterns {
  import opened Text

  datatype Option<T> = None | Some(value: T)

  /** Length of the longest run of characters other than `stop` in `s` from `from`. */
  function RunWithout(s: string, from: nat, stop: char): (n: nat)
    requires from <= |s|
    ensures from + n <= |s|
    decreases |s| - from
  {
    if from == |s| || s[from] == stop then 0 else 1 + RunWithout(s, from + 1, stop)
  }

  /** The run holds no `stop`, and ends at a `stop` or at the end of `s`. */
  lemma {:induction false} RunWithoutSpec(s: string, from: nat, stop: char)
    requires from <= |s|
    ensures var n := RunWithout(s, from, stop);
      (forall k :: from <= k < from + n ==> s[k] != stop) &&
      (from + n == |s| || s[from + n] == stop)
    decreases |s| - from
  {
    if from < |s| && s[from] != stop {
      RunWithoutSpec(s, from + 1, stop);
    }
  }

  /** The maximal run is the only run of non-`stop` characters that `stop` ends. */
  lemma {:induction false} RunWithoutExact(s: string, from: nat, stop: char, n: nat)
    requires from + n < |s| && s[from + n] == stop
    requires forall k :: from <= k < from + n ==> s[k] != stop
    ensures RunWithout(s, from, stop) == n
    decreases n
  {
    if n > 0 {
      assert s[from] != stop;
      RunWithoutExact(s, from + 1, stop, n - 1);
    }
  }

  /** `d` asterisks. */
  function Stars(d: nat): string {
    if d == 0 then [] else "*" + Stars(d - 1)
  }

  lemma {:induction false} StarsLength(d: nat)
    ensures |Stars(d)| == d
  {
    if d > 0 {
      StarsLength(d - 1);
    }
  }

  // ---------------------------------------------------------------------------
  // \*{d}([^*]+)\*{d}

  /** `s` holds `\*{d}g\*{d}` at `a`, with `g` non-empty and free of `*`. */
  predicate IsStarMatch(s: string, a: nat, d: nat, g: string) {
    g != [] && '*' !in g && a + 2 * d + |g| <= |s| &&
    s[a..a + d] == Stars(d) && s[a + d..a + d + |g|] == g && s[a + d + |g|..a + 2 * d + |g|] == Stars(d)
  }

  /** The attempt of the regex engine at position `a`: `d` stars, the greedy
      `[^*]+` (which cannot give back, since what follows must be `*`), then
      `d` stars. */
  predicate StarMatchAt(s: string, a: nat, d: nat) {
    a + d <= |s| && s[a..a + d] == Stars(d) &&
    var n := RunWithout(s, a + d, '*');
    n > 0 && a + 2 * d + n <= |s| && s[a + d + n..a + 2 * d + n] == Stars(d)
  }

  /** The group captured by a successful attempt at `a`. */
  function StarGroup(s: string, a: nat, d: nat): string
    requires StarMatchAt(s, a, d)
  {
    s[a + d..a + d + RunWithout(s, a + d, '*')]
  }

  /** The scanner accepts exactly the declarative matches, and the group it
      captures is the only one possible at that position. */
  lemma StarMatchAtExact(s: string, a: nat, d: nat, g: string)
    requires d >= 1
    ensures IsStarMatch(s, a, d, g) <==> StarMatchAt(s, a, d) && g == StarGroup(s, a, d)
  {
    if IsStarMatch(s, a, d, g) {
      forall k | a + d <= k < a + d + |g| ensures s[k] != '*' {
        assert s[k] == g[k - a - d];
      }
      assert s[a + d + |g|] == Stars(d)[0];
      RunWithoutExact(s, a + d, '*', |g|);
    }
    if StarMatchAt(s, a, d) && g == StarGroup(s, a, d) {
      RunWithoutSpec(s, a + d, '*');
      assert '*' !in g by {
        forall k | 0 <= k < |g| ensures g[k] != '*' {
          assert g[k] == s[a + d + k];
        }
      }
    }
  }

  /** An attempt can only succeed on a star. */
  lemma StarMatchStarts(s: string, a: nat, d: nat)
    requires d >= 1 && StarMatchAt(s, a, d)
    ensures a < |s| && s[a] == '*'
  {
    assert s[a..a + d][0] == Stars(d)[0];
  }

  /** `re.search` of the star pattern from position `from`: the leftmost attempt that succeeds. */
  function FirstStarMatch(s: string, from: nat, d: nat): Option<nat>
    requires from <= |s|
    decreases |s| - from
  {
    if StarMatchAt(s, from, d) then Some(from)
    else if from == |s| then None
    else FirstStarMatch(s, from + 1, d)
  }

  /** A position the search returns is one where an attempt succeeds. */
  lemma {:induction false} FirstStarMatchAt(s: string, from: nat, d: nat)
    requires from <= |s| && FirstStarMatch(s, from, d).Some?
    ensures from <= FirstStarMatch(s, from, d).value <= |s|
    ensures StarMatchAt(s, FirstStarMatch(s, from, d).value, d)
    decreases |s| - from
  {
    if !StarMatchAt(s, from, d) {
      FirstStarMatchAt(s, from + 1, d);
    }
  }

  /** A position the search returns is one where an attempt succeeds, and
      no attempt between `from` and it does. */
  lemma {:induction false} FirstStarMatchFound(s: string, from: nat, d: nat)
    requires from <= |s| && FirstStarMatch(s, from, d).Some?
    ensures var a := FirstStarMatch(s, from, d).value;
      from <= a <= |s| && StarMatchAt(s, a, d) &&
      forall b :: from <= b < a ==> !StarMatchAt(s, b, d)
    decreases |s| - from
  {
    if !StarMatchAt(s, from, d) {
      FirstStarMatchFound(s, from + 1, d);
    }
  }

  /** Conversely, an attempt that succeeds with none before it is what the search returns. */
  lemma {:induction false} FirstStarMatchIs(s: string, from: nat, d: nat, a: nat)
    requires from <= a <= |s| && StarMatchAt(s, a, d)
    requires forall b :: from <= b < a ==> !StarMatchAt(s, b, d)
    ensures FirstStarMatch(s, from, d) == Some(a)
    decreases a - from
  {
    if from < a {
      FirstStarMatchIs(s, from + 1, d, a);
    }
  }

  /** Conversely, when no attempt from `from` on succeeds the search finds nothing. */
  lemma {:induction false} FirstStarMatchAbsent(s: string, from: nat, d: nat)
    requires from <= |s|
    requires forall b :: from <= b <= |s| ==> !StarMatchAt(s, b, d)
    ensures FirstStarMatch(s, from, d).None?
    decreases |s| - from
  {
    if from < |s| {
      FirstStarMatchAbsent(s, from + 1, d);
    }
  }

  /** The search finds nothing only when no attempt from `from` on succeeds. */
  lemma {:induction false} FirstStarMatchNone(s: string, from: nat, d: nat)
    requires from <= |s| && FirstStarMatch(s, from, d).None?
    ensures forall b :: from <= b ==> !StarMatchAt(s, b, d)
    decreases |s| - from
  {
    if from < |s| {
      FirstStarMatchNone(s, from + 1, d);
    }
  }

  /** Undoes a `re.split` over a one-group pattern: the even parts are the
      text between matches, and the odd parts are the groups, so they get
      their `d` stars back. */
  function Rejoin(parts: seq<string>, k: nat, d: nat): string
    decreases |parts| - k
  {
    if k >= |parts| then []
    else (if k % 2 == 0 then parts[k] else Stars(d) + parts[k] + Stars(d)) + Rejoin(parts, k + 1, d)
  }

  lemma {:induction false} RejoinShift(front: seq<string>, rest: seq<string>, k: nat, d: nat)
    requires |front| % 2 == 0
    ensures Rejoin(front + rest, |front| + k, d) == Rejoin(rest, k, d)
    decreases |rest| - k
  {
    if k < |rest| {
      var x := rest[k];
      var piece := if k % 2 == 0 then x else Stars(d) + x + Stars(d);
      assert (front + rest)[|front| + k] == x;
      assert (|front| + k) % 2 == k % 2;
      RejoinShift(front, rest, k + 1, d);
      assert Rejoin(rest, k, d) == piece + Rejoin(rest, k + 1, d);
      assert Rejoin(front + rest, |front| + k, d) == piece + Rejoin(front + rest, |front| + k + 1, d);
    }
  }

  /** Text before the leftmost attempt that succeeds holds no match of its own. */
  lemma NoMatchBefore(s: string, a: nat, d: nat)
    requires d >= 1 && a <= |s|
    requires forall b :: 0 <= b < a ==> !StarMatchAt(s, b, d)
    ensures forall b: nat, h :: !IsStarMatch(s[..a], b, d, h)
  {
    forall b: nat, h ensures !IsStarMatch(s[..a], b, d, h) {
      if IsStarMatch(s[..a], b, d, h) {
        var e := b + 2 * d + |h|;
        assert s[b..b + d] == s[..a][b..b + d];
        assert s[b + d..b + d + |h|] == s[..a][b + d..b + d + |h|];
        assert s[b + d + |h|..e] == s[..a][b + d + |h|..e];
        StarMatchAtExact(s, b, d, h);
      }
    }
  }

  /** Putting one text part and one group in front of a split keeps its shape. */
  lemma SplitCons(p: string, g: string, rest: seq<string>, d: nat)
    requires |rest| % 2 == 1
    requires g != [] && '*' !in g
    requires forall b: nat, h :: !IsStarMatch(p, b, d, h)
    requires forall k :: 0 <= k < |rest| && k % 2 == 1 ==> rest[k] != [] && '*' !in rest[k]
    requires forall k, b: nat, h :: 0 <= k < |rest| && k % 2 == 0 ==> !IsStarMatch(rest[k], b, d, h)
    ensures var parts := [p, g] + rest;
      |parts| % 2 == 1 &&
      (forall k :: 0 <= k < |parts| && k % 2 == 1 ==> parts[k] != [] && '*' !in parts[k]) &&
      (forall k, b: nat, h :: 0 <= k < |parts| && k % 2 == 0 ==> !IsStarMatch(parts[k], b, d, h)) &&
      Rejoin(parts, 0, d) == p + (Stars(d) + g + Stars(d)) + Rejoin(rest, 0, d)
  {
    var parts := [p, g] + rest;
    forall k | 2 <= k < |parts| ensures parts[k] == rest[k - 2] && k % 2 == (k - 2) % 2 { }
    RejoinShift([p, g], rest, 0, d);
  }

  /** A successful attempt cuts `s` into text, the wrapped group and the rest. */
  lemma Reassemble(s: string, a: nat, d: nat, g: string)
    requires a + 2 * d + |g| <= |s|
    requires s[a..a + d] == Stars(d) && s[a + d..a + d + |g|] == g && s[a + d + |g|..a + 2 * d + |g|] == Stars(d)
    ensures s == s[..a] + (Stars(d) + g + Stars(d)) + s[a + 2 * d + |g|..]
  {
    var e := a + 2 * d + |g|;
    assert s[a..e] == s[a..a + d] + s[a + d..a + d + |g|] + s[a + d + |g|..e];
    assert s == s[..a] + s[a..e] + s[e..];
  }

  /** Every match is found leftmost: no attempt succeeds at a position
      inside a text part, on the text that part starts. */
  ghost predicate LeftmostTexts(parts: seq<string>, d: nat) {
    forall k, b :: 0 <= k < |parts| && k % 2 == 0 && 0 <= b < |parts[k]| ==> !StarMatchAt(Rejoin(parts, k, d), b, d)
  }

  /** The shape of `re.split` of `s` with a group: text and groups
      alternate, starting and ending with text; every group is non-empty and
      star-free; no text part holds a match, nor starts one that runs on past
      it; re-wrapping the groups gives `s`. */
  ghost predicate SplitShape(parts: seq<string>, s: string, d: nat) {
    |parts| % 2 == 1 &&
    (forall k :: 0 <= k < |parts| && k % 2 == 1 ==> parts[k] != [] && '*' !in parts[k]) &&
    (forall k, b: nat, h :: 0 <= k < |parts| && k % 2 == 0 ==> !IsStarMatch(parts[k], b, d, h)) &&
    LeftmostTexts(parts, d) &&
    Rejoin(parts, 0, d) == s
  }

  /** A leading text part with no attempt succeeding inside it keeps the
      matches of a split leftmost. */
  lemma LeftmostCons(s: string, d: nat, a: nat, parts: seq<string>)
    requires |parts| >= 2 && |parts[0]| == a && Rejoin(parts, 0, d) == s
    requires forall b :: 0 <= b < a ==> !StarMatchAt(s, b, d)
    requires LeftmostTexts(parts[2..], d)
    ensures LeftmostTexts(parts, d)
  {
    var front, rest := parts[..2], parts[2..];
    assert parts == front + rest;
    forall k, b | 0 <= k < |parts| && k % 2 == 0 && 0 <= b < |parts[k]|
      ensures !StarMatchAt(Rejoin(parts, k, d), b, d)
    {
      if k >= 2 {
        RejoinShift(front, rest, k - 2, d);
        assert parts[k] == rest[k - 2];
      }
    }
  }

  /** One step of `re.split`: the text before the leftmost match and its
      group, in front of a split of what follows the match, split `s`. */
  lemma SplitStep(s: string, d: nat, a: nat, parts: seq<string>)
    requires d >= 1 && a <= |s| && StarMatchAt(s, a, d)
    requires forall b :: 0 <= b < a ==> !StarMatchAt(s, b, d)
    requires |parts| >= 2 && parts[0] == s[..a] && parts[1] == StarGroup(s, a, d)
    requires SplitShape(parts[2..], s[a + 2 * d + RunWithout(s, a + d, '*')..], d)
    ensures SplitShape(parts, s, d)
  {
    var rest := parts[2..];
    FrontTwo(parts);
    var g := StarGroup(s, a, d);
    StarMatchAtExact(s, a, d, g);
    NoMatchBefore(s, a, d);
    SplitCons(s[..a], g, rest, d);
    Reassemble(s, a, d, g);
    LeftmostCons(s, d, a, parts);
  }

  /** `re.split(pattern, s)` for the star pattern with `d` stars: the text
      before the leftmost match, its group, then the split of the rest. */
  function StarSplit(s: string, d: nat): seq<string>
    requires d >= 1
    decreases |s|
  {
    match FirstStarMatch(s, 0, d)
    case None => [s]
    case Some(a) =>
      FirstStarMatchAt(s, 0, d);
      [s[..a], StarGroup(s, a, d)] + StarSplit(s[a + 2 * d + RunWithout(s, a + d, '*')..], d)
  }

  /** Text and groups alternate, starting and ending with text. Every group
      is non-empty and star-free, no text part holds or starts a match, and
      re-wrapping the groups gives `s` back. `StarSplitUnique` shows that
      this shape admits no other list. */
  lemma {:induction false} StarSplitSpec(s: string, d: nat)
    requires d >= 1
    ensures SplitShape(StarSplit(s, d), s, d)
    decreases |s|
  {
    match FirstStarMatch(s, 0, d)
    case None =>
      SplitWhole(s, d);
      assert StarSplit(s, d) == [s];
    case Some(a) =>
      FirstStarMatchFound(s, 0, d);
      var tail := StarSplitUnfold(s, d, a);
      StarSplitSpec(tail, d);
      SplitStep(s, d, a, StarSplit(s, d));
  }

  /** With no match anywhere, `s` alone is a split of itself. */
  lemma SplitWhole(s: string, d: nat)
    requires d >= 1 && FirstStarMatch(s, 0, d).None?
    ensures SplitShape([s], s, d)
  {
    NoStarMatch(s, d);
    FirstStarMatchNone(s, 0, d);
    assert Rejoin([s], 0, d) == s + Rejoin([s], 1, d);
    forall k, b | 0 <= k < 1 && k % 2 == 0 && 0 <= b < |s|
      ensures !StarMatchAt(Rejoin([s], k, d), b, d)
    {
      assert Rejoin([s], k, d) == s;
    }
  }

  /** Text, a wrapped group and more text hold a match of that group right after the text. */
  lemma MatchInside(p: string, g: string, t: string, d: nat)
    requires g != [] && '*' !in g
    ensures var s := p + (Stars(d) + g + Stars(d)) + t; var a := |p|;
      a + 2 * d + |g| <= |s| && IsStarMatch(s, a, d, g) && s[..a] == p && s[a + 2 * d + |g|..] == t
  {
    StarsLength(d);
    var st := Stars(d);
    Regroupings(p, st, g, t);
    Middle(p, st, g + st + t);
    Middle(p + st, g, st + t);
    Middle(p + st + g, st, t);
  }

  // A helper for the solver: three groupings of the same concatenation, stated apart.
  lemma Regroupings(p: string, x: string, g: string, t: string)
    ensures p + (x + g + x) + t == p + x + (g + x + t)
    ensures p + (x + g + x) + t == (p + x) + g + (x + t)
    ensures p + (x + g + x) + t == (p + x + g) + x + t
  {
  }

  // A helper for the solver: the slices of a concatenation of three, stated apart.
  lemma Middle(x: string, y: string, z: string)
    ensures var s := x + y + z;
      s[..|x|] == x && s[|x|..|x| + |y|] == y && s[|x| + |y|..] == z
  {
  }

  /** Re-wrapping a list of two or more parts: its first text, its first
      group in stars, then the re-wrapped rest. */
  lemma RejoinFront(parts: seq<string>, d: nat)
    requires |parts| >= 2
    ensures Rejoin(parts, 0, d) == parts[0] + (Stars(d) + parts[1] + Stars(d)) + Rejoin(parts[2..], 0, d)
  {
    FrontTwo(parts);
    RejoinShift(parts[..2], parts[2..], 0, d);
    assert parts[..2] + parts[2..] == parts;
    assert Rejoin(parts, 0, d) == parts[0] + Rejoin(parts, 1, d);
    assert Rejoin(parts, 1, d) == (Stars(d) + parts[1] + Stars(d)) + Rejoin(parts, 2, d);
  }

  /** The leftmost clause carries over to the parts after the first group. */
  lemma LeftmostTail(parts: seq<string>, d: nat)
    requires |parts| >= 2 && LeftmostTexts(parts, d)
    ensures LeftmostTexts(parts[2..], d)
  {
    var front, rest := parts[..2], parts[2..];
    assert front + rest == parts;
    forall k, b | 0 <= k < |rest| && k % 2 == 0 && 0 <= b < |rest[k]|
      ensures !StarMatchAt(Rejoin(rest, k, d), b, d)
    {
      RejoinShift(front, rest, k, d);
      assert rest[k] == parts[k + 2];
    }
  }

  /** The parts after the first group split what they re-wrap to. */
  lemma SplitTail(parts: seq<string>, s: string, d: nat)
    requires |parts| >= 3 && SplitShape(parts, s, d)
    ensures SplitShape(parts[2..], Rejoin(parts[2..], 0, d), d)
  {
    var rest := parts[2..];
    forall k | 0 <= k < |rest| ensures rest[k] == parts[k + 2] && (k + 2) % 2 == k % 2 { }
    LeftmostTail(parts, d);
  }

  /** A split of three or more parts: its first text is `s` up to a match
      of its first group, and the parts after that group split the text
      after the match. */
  lemma SplitHead(parts: seq<string>, s: string, d: nat) returns (tail: string)
    requires d >= 1 && |parts| >= 3 && SplitShape(parts, s, d)
    ensures var a := |parts[0]|;
      a + 2 * d + |parts[1]| <= |s| && IsStarMatch(s, a, d, parts[1]) && parts[0] == s[..a] &&
      (forall b :: 0 <= b < a ==> !StarMatchAt(s, b, d)) &&
      tail == s[a + 2 * d + |parts[1]|..] && |tail| < |s| && SplitShape(parts[2..], tail, d)
  {
    tail := Rejoin(parts[2..], 0, d);
    RejoinFront(parts, d);
    MatchInside(parts[0], parts[1], tail, d);
    SplitTail(parts, s, d);
    assert forall b :: 0 <= b < |parts[0]| ==> !StarMatchAt(Rejoin(parts, 0, d), b, d);
  }

  /** A split of one part is `s` alone, and then `s` holds no match. */
  lemma SplitSingle(parts: seq<string>, s: string, d: nat)
    requires d >= 1 && |parts| == 1 && SplitShape(parts, s, d)
    ensures parts == [s] && FirstStarMatch(s, 0, d).None?
  {
    assert Rejoin(parts, 0, d) == parts[0] + Rejoin(parts, 1, d);
    assert Rejoin(parts, 1, d) == [];
    assert parts[0] + [] == parts[0];
    forall b | 0 <= b <= |s| ensures !StarMatchAt(s, b, d) {
      if b < |s| {
        assert !StarMatchAt(Rejoin(parts, 0, d), b, d);
      }
    }
    FirstStarMatchAbsent(s, 0, d);
  }

  /** A match at the end of a text that holds no successful attempt is
      the one the search finds, and its group is the one that match captures. */
  lemma FirstMatchAfterText(parts: seq<string>, s: string, d: nat)
    requires d >= 1 && |parts| >= 2
    requires var a := |parts[0]|;
      IsStarMatch(s, a, d, parts[1]) && parts[0] == s[..a] &&
      forall b :: 0 <= b < a ==> !StarMatchAt(s, b, d)
    ensures var a := |parts[0]|;
      a <= |s| && StarMatchAt(s, a, d) && FirstStarMatch(s, 0, d) == Some(a) &&
      parts[1] == StarGroup(s, a, d) && |parts[1]| == RunWithout(s, a + d, '*')
  {
    var a := |parts[0]|;
    StarMatchAtExact(s, a, d, parts[1]);
    FirstStarMatchIs(s, 0, d, a);
  }

  /** Text before the first match, its group, and the split of what
      follows the match make the split of `s`. */
  lemma SplitFirstMatchCons(parts: seq<string>, s: string, d: nat, tail: string)
    requires d >= 1 && |parts| >= 2
    requires var a := |parts[0]|;
      a <= |s| && StarMatchAt(s, a, d) && FirstStarMatch(s, 0, d) == Some(a) &&
      parts[0] == s[..a] && parts[1] == StarGroup(s, a, d) &&
      a + 2 * d + RunWithout(s, a + d, '*') <= |s| && tail == s[a + 2 * d + RunWithout(s, a + d, '*')..] &&
      parts[2..] == StarSplit(tail, d)
    ensures parts == StarSplit(s, d)
  {
    var whole := StarSplit(s, d);
    var rest := StarSplitUnfold(s, d, |parts[0]|);
    assert rest == tail;
    assert whole[2..] == parts[2..];
    SameFrontTwo(parts, whole);
  }

  /** The shape determines the split: a list with the shape of a split of
      `s` is the one `re.split` returns. */
  lemma {:induction false} StarSplitUnique(parts: seq<string>, s: string, d: nat)
    requires d >= 1 && SplitShape(parts, s, d)
    ensures parts == StarSplit(s, d)
    decreases |s|
  {
    if |parts| == 1 {
      SplitSingle(parts, s, d);
      assert StarSplit(s, d) == [s];
    } else {
      var tail := SplitHead(parts, s, d);
      FirstMatchAfterText(parts, s, d);
      StarSplitUnique(parts[2..], tail, d);
      SplitFirstMatchCons(parts, s, d, tail);
    }
  }

  /** A split with a match at `a` is the text before it, its group, and the
      split of what follows the match, which is returned. */
  lemma StarSplitUnfold(s: string, d: nat, a: nat) returns (tail: string)
    requires d >= 1 && a <= |s| && StarMatchAt(s, a, d) && FirstStarMatch(s, 0, d) == Some(a)
    ensures a + 2 * d + RunWithout(s, a + d, '*') <= |s|
    ensures tail == s[a + 2 * d + RunWithout(s, a + d, '*')..] && |tail| < |s|
    ensures var parts := StarSplit(s, d);
      |parts| >= 2 && parts[0] == s[..a] && parts[1] == StarGroup(s, a, d) && parts[2..] == StarSplit(tail, d)
  {
    tail := s[a + 2 * d + RunWithout(s, a + d, '*')..];
    StarSplitCons(s, d, a);
    PairThen(s[..a], StarGroup(s, a, d), StarSplit(tail, d));
  }

  /** One unfolding of `StarSplit` at its leftmost match `a`. */
  // A helper for the solver: stated apart, with every part named, so that the caller does not unfold its terms.
  lemma StarSplitCons(s: string, d: nat, a: nat)
    requires d >= 1 && a <= |s| && StarMatchAt(s, a, d) && FirstStarMatch(s, 0, d) == Some(a)
    ensures StarSplit(s, d) == [s[..a], StarGroup(s, a, d)] + StarSplit(s[a + 2 * d + RunWithout(s, a + d, '*')..], d)
  {
  }

  /** Two elements in front of a sequence are its first two, and the sequence follows them. */
  // A helper for the solver: stated apart, with every part named, so that the caller does not unfold its terms.
  lemma PairThen<T>(x: T, y: T, rest: seq<T>)
    ensures var p := [x, y] + rest;
      |p| >= 2 && p[0] == x && p[1] == y && p[2..] == rest
  {
  }

  // A helper for the solver: sequence equality from the first two elements and the rest.
  lemma SameFrontTwo<T>(x: seq<T>, y: seq<T>)
    requires |x| >= 2 && |y| >= 2 && x[0] == y[0] && x[1] == y[1] && x[2..] == y[2..]
    ensures x == y
  {
    FrontTwo(x);
    FrontTwo(y);
  }

  /** A sequence of at least two elements is its first two and the rest. */
  // A helper for the solver: stated apart, with every part named, so that the caller does not unfold its terms.
  lemma FrontTwo<T>(p: seq<T>)
    requires |p| >= 2
    ensures p == [p[0], p[1]] + p[2..]
  {
  }

  /** When the scanner finds no match, there is none. */
  lemma NoStarMatch(s: string, d: nat)
    requires d >= 1 && FirstStarMatch(s, 0, d).None?
    ensures forall b: nat, g :: !IsStarMatch(s, b, d, g)
  {
    FirstStarMatchNone(s, 0, d);
    forall b: nat, g ensures !IsStarMatch(s, b, d, g) {
      StarMatchAtExact(s, b, d, g);
    }
  }

  // ---------------------------------------------------------------------------
  // !\[([^\]]*)\]\(([^\)]+)\)

  /** A match of the image pattern: where it starts, the description (group 1) and the path (group 2). */
  datatype ImageRef = ImageRef(start: nat, desc: string, path: string)

  /** `s` holds `![desc](path)` at `a`, with no `]` in `desc` and a non-empty `path` free of `)`. */
  predicate IsImageMatch(s: string, a: nat, desc: string, path: string) {
    var q := a + 2 + |desc|;
    ']' !in desc && ')' !in path && path != [] && q + 3 + |path| <= |s| &&
    s[a..a + 2] == "![" && s[a + 2..q] == desc && s[q..q + 2] == "](" &&
    s[q + 2..q + 2 + |path|] == path && s[q + 2 + |path|] == ')'
  }

  /** The attempt of the regex engine at position `a`; both character-class
      runs are greedy and cannot give back, since what follows each must be
      the very character the class excludes. */
  function ImageAt(s: string, a: nat): Option<ImageRef> {
    if a + 2 <= |s| && s[a..a + 2] == "![" then
      var q := a + 2 + RunWithout(s, a + 2, ']');
      if q + 2 <= |s| && s[q..q + 2] == "](" then
        var m := RunWithout(s, q + 2, ')');
        if m > 0 && q + 2 + m < |s| then Some(ImageRef(a, s[a + 2..q], s[q + 2..q + 2 + m]))
        else None
      else None
    else None
  }

  /** The scanner's attempt succeeds exactly on the declarative matches, and
      at most one description and path can match at a position. */
  lemma ImageAtExact(s: string, a: nat, desc: string, path: string)
    ensures IsImageMatch(s, a, desc, path) <==> ImageAt(s, a) == Some(ImageRef(a, desc, path))
  {
    if IsImageMatch(s, a, desc, path) {
      ImageAtComplete(s, a, desc, path);
    }
    if ImageAt(s, a) == Some(ImageRef(a, desc, path)) {
      ImageAtSound(s, a, desc, path);
    }
  }

  /** Every declarative match is the one the attempt at its position finds. */
  lemma ImageAtComplete(s: string, a: nat, desc: string, path: string)
    requires IsImageMatch(s, a, desc, path)
    ensures ImageAt(s, a) == Some(ImageRef(a, desc, path))
  {
    var q := a + 2 + |desc|;
    forall k | a + 2 <= k < q ensures s[k] != ']' {
      assert s[k] == desc[k - a - 2];
    }
    assert s[q] == "]("[0];
    RunWithoutExact(s, a + 2, ']', |desc|);
    forall k | q + 2 <= k < q + 2 + |path| ensures s[k] != ')' {
      assert s[k] == path[k - q - 2];
    }
    RunWithoutExact(s, q + 2, ')', |path|);
  }

  /** What the attempt finds is a declarative match. */
  lemma ImageAtSound(s: string, a: nat, desc: string, path: string)
    requires ImageAt(s, a) == Some(ImageRef(a, desc, path))
    ensures IsImageMatch(s, a, desc, path)
  {
    var q := ImageAtParts(s, a);
    ImageRunsMatch(s, a, q, RunWithout(s, q + 2, ')'));
  }

  /** The two maximal runs of a successful attempt make a declarative match. */
  lemma ImageRunsMatch(s: string, a: nat, q: nat, m: nat)
    requires a + 2 <= |s| && q == a + 2 + RunWithout(s, a + 2, ']') && q + 2 <= |s| && m == RunWithout(s, q + 2, ')')
    requires s[a..a + 2] == "![" && s[q..q + 2] == "](" && m > 0 && q + 2 + m < |s|
    ensures IsImageMatch(s, a, s[a + 2..q], s[q + 2..q + 2 + m])
  {
    RunWithoutFree(s, a + 2, ']');
    RunWithoutFree(s, q + 2, ')');
    RunWithoutSpec(s, q + 2, ')');
  }

  /** A successful attempt at `a`: `![`, the description up to the first
      `]`, `](`, and a non-empty path up to the first `)`, which follows it;
      the end of the description is returned. */
  lemma ImageAtParts(s: string, a: nat) returns (q: nat)
    requires ImageAt(s, a).Some?
    ensures a + 2 <= |s| && q == a + 2 + RunWithout(s, a + 2, ']')
    ensures var m := RunWithout(s, q + 2, ')');
      s[a..a + 2] == "![" && q + 2 <= |s| && s[q..q + 2] == "](" && m > 0 && q + 2 + m < |s| &&
      ImageAt(s, a) == Some(ImageRef(a, s[a + 2..q], s[q + 2..q + 2 + m]))
  {
    q := a + 2 + RunWithout(s, a + 2, ']');
  }

  /** The run found by `RunWithout` holds no `stop`. */
  lemma RunWithoutFree(s: string, from: nat, stop: char)
    requires from <= |s|
    ensures stop !in s[from..from + RunWithout(s, from, stop)]
  {
    RunWithoutSpec(s, from, stop);
    var r := s[from..from + RunWithout(s, from, stop)];
    forall k | 0 <= k < |r| ensures r[k] != stop {
      assert r[k] == s[from + k];
    }
  }

  /** `re.search` of the image pattern from position `from`. */
  function ImageSearch(s: string, from: nat): Option<ImageRef>
    decreases |s| + 1 - from
  {
    if from > |s| then None
    else if ImageAt(s, from).Some? then ImageAt(s, from)
    else ImageSearch(s, from + 1)
  }

  /** The search returns the first attempt from `from` on that succeeds. */
  lemma {:induction false} ImageSearchSpec(s: string, from: nat)
    ensures var r := ImageSearch(s, from);
      (r.Some? ==> from <= r.value.start && ImageAt(s, r.value.start) == r) &&
      (forall b :: from <= b && (r.Some? ==> b < r.value.start) ==> ImageAt(s, b).None?)
    decreases |s| + 1 - from
  {
    if from > |s| {
      assert forall b :: from <= b ==> ImageAt(s, b).None?;
    } else if ImageAt(s, from).None? {
      ImageSearchSpec(s, from + 1);
    }
  }

  /** `re.search(r'!\[([^\]]*)\]\(([^\)]+)\)', line)`. */
  function ImageMatch(line: string): Option<ImageRef> {
    ImageSearch(line, 0)
  }

  /** The search finds the leftmost `![desc](path)` in the line, and finds
      nothing exactly when there is none. */
  lemma ImageMatchSpec(line: string)
    ensures var r := ImageMatch(line);
      (r.Some? ==> IsImageMatch(line, r.value.start, r.value.desc, r.value.path)) &&
      (r.Some? ==> forall b: nat, desc, path :: b < r.value.start ==> !IsImageMatch(line, b, desc, path)) &&
      (r.None? ==> forall b: nat, desc, path :: !IsImageMatch(line, b, desc, path))
  {
    var r := ImageSearch(line, 0);
    ImageSearchSpec(line, 0);
    forall b: nat, desc, path | r.None? || b < r.value.start ensures !IsImageMatch(line, b, desc, path) {
      ImageAtExact(line, b, desc, path);
    }
    if r.Some? {
      ImageAtExact(line, r.value.start, r.value.desc, r.value.path);
    }
  }
}
