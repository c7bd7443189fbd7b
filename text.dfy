/** The Python string primitives the converter relies on: `str.startswith`,
    `str.strip()`, `str.lstrip(chars)` and `str.split(sep)`, written over
    `seq<char>`. */
module Text {

  /** Python's `str.isspace` for one character: the ASCII controls `\t` to
      `\r` and `\x1c` to `\x1f`, the space, and the Unicode spaces and line
      and paragraph separators. */
  predicate IsSpace(c: char) {
    '\t' <= c <= '\r' || '\U{001C}' <= c <= ' ' || c == '\U{0085}' || c == '\U{00A0}' || c == '\U{1680}'
    || '\U{2000}' <= c <= '\U{200A}' || c == '\U{2028}' || c == '\U{2029}' || c == '\U{202F}'
    || c == '\U{205F}' || c == '\U{3000}'
  }

  /** The characters `strip()` and `lstrip()` remove when called without an argument. */
  const Whitespace: set<char> := set c: char | IsSpace(c)

  predicate StartsWith(s: string, prefix: string) {
    |prefix| <= |s| && s[..|prefix|] == prefix
  }

  /** `s.lstrip(chars)`: drops the longest prefix made only of characters in `cs`. */
  function TrimStart(s: string, cs: set<char>): string {
    if s != [] && s[0] in cs then TrimStart(s[1..], cs) else s
  }

  /** What `lstrip` leaves is a suffix of `s`, everything it dropped is in
      `cs`, and what it leaves does not start with a character of `cs`. */
  lemma {:induction false} TrimStartSpec(s: string, cs: set<char>)
    ensures var r := TrimStart(s, cs);
      |r| <= |s| && r == s[|s| - |r|..] &&
      (forall k :: 0 <= k < |s| - |r| ==> s[k] in cs) &&
      (r == [] || r[0] !in cs)
  {
    if s != [] && s[0] in cs {
      TrimStartSpec(s[1..], cs);
    }
  }

  /** `s.rstrip(chars)`: drops the longest suffix made only of characters in `cs`. */
  function TrimEnd(s: string, cs: set<char>): string {
    if s != [] && s[|s| - 1] in cs then TrimEnd(s[..|s| - 1], cs) else s
  }

  /** What `rstrip` leaves is a prefix of `s`, everything it dropped is in
      `cs`, and what it leaves does not end with a character of `cs`. */
  lemma {:induction false} TrimEndSpec(s: string, cs: set<char>)
    ensures var r := TrimEnd(s, cs);
      |r| <= |s| && r == s[..|r|] &&
      (forall k :: |r| <= k < |s| ==> s[k] in cs) &&
      (r == [] || r[|r| - 1] !in cs)
  {
    if s != [] && s[|s| - 1] in cs {
      TrimEndSpec(s[..|s| - 1], cs);
    }
  }

  /** `s.strip()`. */
  function Strip(s: string): string {
    TrimEnd(TrimStart(s, Whitespace), Whitespace)
  }

  /** `strip()` leaves a slice of `s` (starting where `lstrip` stops) with no
      whitespace at either end; the result is empty exactly when `s` is all
      whitespace, and a string that does not start with whitespace keeps its
      first character. */
  lemma StripSpec(s: string)
    ensures var r := Strip(s); var i := |s| - |TrimStart(s, Whitespace)|;
      |r| <= |s| && 0 <= i && i + |r| <= |s| && r == s[i..i + |r|] && (forall c :: c in r ==> c in s) &&
      (r == [] <==> forall k :: 0 <= k < |s| ==> s[k] in Whitespace) &&
      (r != [] ==> r[0] !in Whitespace && r[|r| - 1] !in Whitespace) &&
      (s != [] && s[0] !in Whitespace ==> r != [] && r[0] == s[0])
  {
    var t := TrimStart(s, Whitespace);
    TrimStartSpec(s, Whitespace);
    TrimEndSpec(t, Whitespace);
    var r := TrimEnd(t, Whitespace);
    assert r == s[|s| - |t|..][..|r|];
    assert forall c :: c in r ==> c in t;
    assert forall c :: c in t ==> c in s;
    assert r != [] ==> r[0] == t[0];
    assert t != [] ==> s[|s| - |t|] == t[0];
  }

  /** Python's `not line.strip()`. */
  predicate IsBlank(line: string) {
    Strip(line) == []
  }

  /** Number of occurrences of `c` in `s`. */
  function Occurrences(s: string, c: char): nat {
    multiset(s)[c]
  }

  /** The inverse of `s.split(sep)`: `sep.join(fields)`. */
  function JoinWith(fields: seq<string>, sep: char): string {
    if |fields| == 0 then []
    else if |fields| == 1 then fields[0]
    else fields[0] + [sep] + JoinWith(fields[1..], sep)
  }

  /** Prepending a non-separator character extends the first field. */
  lemma JoinWithCons(c: char, first: string, rest: seq<string>, sep: char)
    ensures JoinWith([[c] + first] + rest, sep) == [c] + JoinWith([first] + rest, sep)
  {
    if rest != [] {
      assert ([[c] + first] + rest)[1..] == rest;
      assert ([first] + rest)[1..] == rest;
    }
  }

  /** `s.split(sep)` for a one-character separator. */
  function SplitOn(s: string, sep: char): seq<string> {
    if s == [] then [[]]
    else
      var rest := SplitOn(s[1..], sep);
      if s[0] == sep then [[]] + rest
      else [[s[0]] + rest[0]] + rest[1..]
  }

  /** `s.split(sep)` gives one more field than there are separators. */
  lemma {:induction false} SplitOnCount(s: string, sep: char)
    ensures |SplitOn(s, sep)| == Occurrences(s, sep) + 1
  {
    if s != [] {
      SplitOnCount(s[1..], sep);
      assert s == [s[0]] + s[1..];
      assert multiset(s) == multiset{s[0]} + multiset(s[1..]);
    }
  }

  /** No field of `s.split(sep)` holds the separator. */
  lemma {:induction false} SplitOnFields(s: string, sep: char)
    ensures forall k :: 0 <= k < |SplitOn(s, sep)| ==> sep !in SplitOn(s, sep)[k]
  {
    if s != [] {
      var rest := SplitOn(s[1..], sep);
      SplitOnFields(s[1..], sep);
      if s[0] == sep {
        var fields := [[]] + rest;
        assert forall k :: 1 <= k < |fields| ==> fields[k] == rest[k - 1];
      } else {
        var fields := [[s[0]] + rest[0]] + rest[1..];
        assert forall k :: 1 <= k < |fields| ==> fields[k] == rest[k];
      }
    }
  }

  /** Joining the fields of `s.split(sep)` with `sep` gives `s` back. */
  lemma {:induction false} SplitOnJoin(s: string, sep: char)
    ensures JoinWith(SplitOn(s, sep), sep) == s
  {
    if s != [] {
      var rest := SplitOn(s[1..], sep);
      SplitOnJoin(s[1..], sep);
      assert s == [s[0]] + s[1..];
      if s[0] == sep {
        assert ([[]] + rest)[1..] == rest;
      } else {
        assert rest == [rest[0]] + rest[1..];
        JoinWithCons(s[0], rest[0], rest[1..], sep);
      }
    }
  }
}
