/**
 * ASCII text helpers shared by the scrapers: Python's `\s`, `\d`, `\w`,
 * `str.strip`, `str.lower`, `in` on strings and `str.split('\n')`.
 * Character classes are restricted to ASCII.
 */
module Text {
  import opened Wrappers

  /** Python's `\s` and `str.isspace` on ASCII: space, \t \n \v \f \r and \x1c-\x1f. */
  predicate IsSpace(c: char) {
    c == ' ' || ('\t' <= c <= '\r') || ('\U{1C}' <= c <= '\U{1F}')
  }

  predicate IsDigit(c: char) { '0' <= c <= '9' }

  predicate IsLetter(c: char) { ('a' <= c <= 'z') || ('A' <= c <= 'Z') }

  /** Python's `\w` on ASCII. */
  predicate IsWordChar(c: char) { IsLetter(c) || IsDigit(c) || c == '_' }

  predicate AllDigits(s: string) { forall i :: 0 <= i < |s| ==> IsDigit(s[i]) }

  predicate AllLetters(s: string) { forall i :: 0 <= i < |s| ==> IsLetter(s[i]) }

  function LowerChar(c: char): (r: char)
    ensures IsLetter(c) ==> IsLetter(r) && !('A' <= r <= 'Z')
    ensures !('A' <= c <= 'Z') ==> r == c
  {
    if 'A' <= c <= 'Z' then (c as int - 'A' as int + 'a' as int) as char else c
  }

  /** Python's `str.lower()` on ASCII. */
  function Lower(s: string): (r: string)
    ensures |r| == |s|
    ensures forall i :: 0 <= i < |s| ==> r[i] == LowerChar(s[i])
  {
    if s == [] then [] else [LowerChar(s[0])] + Lower(s[1..])
  }

  /** `w` occurs in `s` starting at index `i`. */
  predicate OccursAt(s: string, i: int, w: string) {
    0 <= i && i + |w| <= |s| && s[i..i + |w|] == w
  }

  /** Python's `w in s`. */
  predicate Contains(s: string, w: string) {
    exists i :: 0 <= i <= |s| - |w| && OccursAt(s, i, w)
  }

  /** An occurrence inside `s[p..q]` is an occurrence in the slice. */
  lemma OccursInSlice(s: string, p: nat, q: nat, at: nat, w: string)
    requires p <= q <= |s| && at + |w| <= q - p && OccursAt(s, p + at, w)
    ensures OccursAt(s[p..q], at, w)
  {
    forall i | 0 <= i < |w| ensures s[p..q][at..at + |w|][i] == w[i] {
      assert s[p..q][at..at + |w|][i] == s[p + at + i];
      assert s[p + at..p + at + |w|][i] == s[p + at + i];
    }
  }

  /** Every slice of `s` occurs in `s`. */
  lemma SliceContained(s: string, p: nat, q: nat)
    requires p <= q <= |s|
    ensures Contains(s, s[p..q])
  {
    assert |s[p..q]| == q - p;
    assert OccursAt(s, p, s[p..q]);
  }

  /** The leftmost occurrence of `w` in `s` at or after `from` (`str.find`). */
  function IndexOf(s: string, w: string, from: nat): (r: Option<nat>)
    ensures r.Some? ==>
      from <= r.value && OccursAt(s, r.value, w) && forall j :: from <= j < r.value ==> !OccursAt(s, j, w)
    ensures r.None? ==> forall j :: from <= j ==> !OccursAt(s, j, w)
    decreases |s| - from
  {
    if from + |w| > |s| then None
    else if s[from..from + |w|] == w then Some(from)
    else IndexOf(s, w, from + 1)
  }

  lemma ContainsIffIndexOf(s: string, w: string)
    ensures Contains(s, w) <==> IndexOf(s, w, 0).Some?
  {
    if IndexOf(s, w, 0).Some? {
      assert OccursAt(s, IndexOf(s, w, 0).value, w);
    }
  }

  /** A character that does not occur in `s` is not found in it. */
  lemma IndexOfAbsentChar(s: string, c: char)
    requires c !in s
    ensures IndexOf(s, [c], 0).None?
  {
    forall j | 0 <= j < |s| ensures !OccursAt(s, j, [c]) {
      assert s[j] in s;
    }
  }

  /** All characters of `s` are whitespace. */
  predicate Blank(s: string) { forall i :: 0 <= i < |s| ==> IsSpace(s[i]) }

  /** The first index at or after `i` that does not hold whitespace (or `|s|`). */
  function SkipSpaces(s: string, i: nat): (r: nat)
    requires i <= |s|
    ensures i <= r <= |s| && (r == |s| || !IsSpace(s[r]))
    ensures forall j :: i <= j < r ==> IsSpace(s[j])
    decreases |s| - i
  {
    if i < |s| && IsSpace(s[i]) then SkipSpaces(s, i + 1) else i
  }

  /** The least `r >= lo` such that `s[r..j]` is all whitespace. */
  function SkipSpacesBack(s: string, lo: nat, j: nat): (r: nat)
    requires lo <= j <= |s|
    ensures lo <= r <= j && (r == lo || !IsSpace(s[r - 1]))
    ensures forall k :: r <= k < j ==> IsSpace(s[k])
    decreases j
  {
    if lo < j && IsSpace(s[j - 1]) then SkipSpacesBack(s, lo, j - 1) else j
  }

  /** Where `Trim(s)` starts inside `s`. */
  function TrimStart(s: string): (a: nat)
    ensures a <= |s|
  {
    SkipSpaces(s, 0)
  }

  /** Where `Trim(s)` ends inside `s`. */
  function TrimEnd(s: string): (b: nat)
    ensures TrimStart(s) <= b <= |s|
  {
    SkipSpacesBack(s, TrimStart(s), |s|)
  }

  /**
   * Python's `str.strip()`: the substring of `s` left once the whitespace at
   * both ends is removed; it neither starts nor ends with whitespace.
   */
  function Trim(s: string): (r: string)
    ensures r == s[TrimStart(s)..TrimEnd(s)]
    ensures r == [] || (!IsSpace(r[0]) && !IsSpace(r[|r| - 1]))
    ensures forall k :: 0 <= k < TrimStart(s) || TrimEnd(s) <= k < |s| ==> IsSpace(s[k])
    ensures Blank(s) <==> r == []
  {
    var a := TrimStart(s);
    var b := TrimEnd(s);
    assert a < b ==> s[a..b][0] == s[a];
    s[a..b]
  }

  /** A stripped text: no whitespace at either end. */
  predicate Stripped(s: string) {
    s == [] || (!IsSpace(s[0]) && !IsSpace(s[|s| - 1]))
  }

  /** Stripping a stripped text changes nothing, so `strip()` is idempotent. */
  lemma TrimStripped(s: string)
    requires Stripped(s)
    ensures Trim(s) == s
  {
    assert TrimStart(s) == 0;
    assert TrimEnd(s) == |s|;
  }

  /** Python's `str.strip(c)` for one character `c`. */
  function StripChar(s: string, c: char): (r: string)
    ensures r == [] || (r[0] != c && r[|r| - 1] != c)
    ensures forall x :: x in r ==> x in s
    ensures (s == [] || (s[0] != c && s[|s| - 1] != c)) ==> r == s
  {
    if s == [] then []
    else if s[0] == c then StripChar(s[1..], c)
    else if s[|s| - 1] == c then StripChar(s[..|s| - 1], c)
    else s
  }

  /** Joins `parts` with `sep` between consecutive parts (`sep.join(parts)`). */
  function Join(parts: seq<string>, sep: string): string {
    if parts == [] then []
    else if |parts| == 1 then parts[0]
    else parts[0] + sep + Join(parts[1..], sep)
  }

  /** The text of `s` before its first newline (all of `s` when there is none). */
  function FirstLine(s: string): (r: string)
    ensures '\n' !in r
    ensures r == s || (|r| < |s| && s[|r|] == '\n' && r == s[..|r|])
  {
    if s == [] then []
    else if s[0] == '\n' then []
    else [s[0]] + FirstLine(s[1..])
  }

  /** Python's `s.split('\n')`: never empty, no part holds a newline. */
  function SplitLines(s: string): (r: seq<string>)
    ensures |r| >= 1 && r[0] == FirstLine(s)
    ensures forall k :: 0 <= k < |r| ==> '\n' !in r[k]
    decreases |s|
  {
    var first := FirstLine(s);
    if first == s then [s]
    else [first] + SplitLines(s[|first| + 1..])
  }

  /** Splitting and joining again with the separator gives the text back. */
  lemma {:induction false} SplitLinesJoin(s: string)
    ensures Join(SplitLines(s), "\n") == s
    decreases |s|
  {
    if FirstLine(s) != s {
      SplitLinesJoin(s[|FirstLine(s)| + 1..]);
      SplitLinesJoinStep(s);
    }
  }

  /** A text with a newline is its first line, the newline, and the rest, split and joined. */
  lemma SplitLinesJoinStep(s: string)
    requires FirstLine(s) != s
    requires Join(SplitLines(s[|FirstLine(s)| + 1..]), "\n") == s[|FirstLine(s)| + 1..]
    ensures Join(SplitLines(s), "\n") == s
  {
    var first := FirstLine(s);
    var rest := s[|first| + 1..];
    var tail := SplitLines(rest);
    assert SplitLines(s) == [first] + tail;
    assert ([first] + tail)[1..] == tail;
    assert Join([first] + tail, "\n") == first + "\n" + Join(tail, "\n");
    SplitAround(s, |first|);
    assert [s[|first|]] == "\n";
  }

  /** A sequence is what comes before index `i`, the element at `i`, and what follows. */
  lemma SplitAround<T>(s: seq<T>, i: nat)
    requires i < |s|
    ensures s == s[..i] + [s[i]] + s[i + 1..]
  {
    assert s[i..] == [s[i]] + s[i + 1..];
    assert s == s[..i] + s[i..];
  }
}
