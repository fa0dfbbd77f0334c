/**
 * The Duke Muslim-life calendar: the events of an iCalendar (RFC 5545)
 * feed, their fields, a cleaned description, the sort by start time and
 * the layout of the calendar document, one entry per event.
 */
module EventCalendar {
  import opened Wrappers
  import opened Text
  import StableSort

  // Event blocks: every text strictly between a `BEGIN:VEVENT` and the
  // next `END:VEVENT`, leftmost first (`re.findall` with a lazy `.*?`
  // that also crosses line ends).

  const Begin := "BEGIN:VEVENT"
  const End := "END:VEVENT"

  /** A block at `[s, e)`: a begin marker just before, the first end marker after it at `e`. */
  predicate Enclosed(text: string, s: nat, e: nat) {
    s >= |Begin| && OccursAt(text, s - |Begin|, Begin) && s <= e && OccursAt(text, e, End) &&
    forall j :: s <= j < e ==> !OccursAt(text, j, End)
  }

  /** No begin marker at or after `from` is followed by an end marker. */
  ghost predicate NoPairAfter(text: string, from: nat) {
    forall b, e :: from <= b && OccursAt(text, b, Begin) && b + |Begin| <= e ==> !OccursAt(text, e, End)
  }

  /**
   * The next block at or after `from`: the first begin marker and the first
   * end marker after it; none when no begin marker is followed by an end marker.
   */
  function NextSpan(text: string, from: nat): (r: Option<(nat, nat)>)
    ensures r.Some? ==> from + |Begin| <= r.value.0 <= r.value.1 && r.value.1 + |End| <= |text|
  {
    match IndexOf(text, Begin, from)
    case None => None
    case Some(b) =>
      (match IndexOf(text, End, b + |Begin|)
       case None => None
       case Some(e) => Some((b + |Begin|, e)))
  }

  /**
   * The next block is enclosed by its markers and its begin marker is the
   * first one at or after `from`; there is none exactly when no begin
   * marker is followed by an end marker.
   */
  lemma NextSpanFound(text: string, from: nat)
    ensures NextSpan(text, from).Some? ==>
      from + |Begin| <= NextSpan(text, from).value.0 &&
      Enclosed(text, NextSpan(text, from).value.0, NextSpan(text, from).value.1)
    ensures NextSpan(text, from).Some? ==>
      forall j :: from <= j < NextSpan(text, from).value.0 - |Begin| ==> !OccursAt(text, j, Begin)
    ensures NextSpan(text, from).None? <==> NoPairAfter(text, from)
  {
    match IndexOf(text, Begin, from)
    case None =>
    case Some(b) =>
      match IndexOf(text, End, b + |Begin|)
      case None =>
        forall b', e | from <= b' && OccursAt(text, b', Begin) && b' + |Begin| <= e
          ensures !OccursAt(text, e, End)
        {
          assert b <= b';
        }
      case Some(e) =>
        assert OccursAt(text, (b + |Begin|) - |Begin|, Begin);
  }

  /** The `[start, end)` positions of the blocks found at or after `from`. */
  function SpansFrom(text: string, from: nat): (r: seq<(nat, nat)>)
    ensures forall k :: 0 <= k < |r| ==> from + |Begin| <= r[k].0 <= r[k].1 && r[k].1 + |End| <= |text|
    decreases |text| - from
  {
    match NextSpan(text, from)
    case None => []
    case Some(span) => [span] + SpansFrom(text, After(span))
  }

  function Slices(text: string, spans: seq<(nat, nat)>): (r: seq<string>)
    requires forall k :: 0 <= k < |spans| ==> spans[k].0 <= spans[k].1 <= |text|
    ensures |r| == |spans|
    ensures forall k :: 0 <= k < |spans| ==> r[k] == text[spans[k].0..spans[k].1]
  {
    if spans == [] then [] else [text[spans[0].0..spans[0].1]] + Slices(text, spans[1..])
  }

  /** `re.findall(r"BEGIN:VEVENT(.*?)END:VEVENT", ics_text, re.DOTALL)`. */
  function EventBlocks(text: string): (r: seq<string>)
    ensures |r| == |SpansFrom(text, 0)|
  {
    Slices(text, SpansFrom(text, 0))
  }

  /** Where the search for block `k` starts: `from`, or just past the previous block's end marker. */
  function SearchStart(spans: seq<(nat, nat)>, from: nat, k: nat): nat
    requires k <= |spans|
  {
    if k == 0 then from else spans[k - 1].1 + |End|
  }

  /** Block `k` is enclosed by its markers. */
  lemma SpanEnclosed(text: string, from: nat, k: nat)
    requires k < |SpansFrom(text, from)|
    ensures Enclosed(text, SpansFrom(text, from)[k].0, SpansFrom(text, from)[k].1)
  {
    SpanIsNext(text, from, k);
    NextSpanFound(text, SearchStart(SpansFrom(text, from), from, k));
  }

  /** Block `k` is the next block found from where its search starts. */
  lemma SpanIsNext(text: string, from: nat, k: nat)
    requires k < |SpansFrom(text, from)|
    ensures NextSpan(text, SearchStart(SpansFrom(text, from), from, k)) == Some(SpansFrom(text, from)[k])
  {
    SpansChained(text, from);
    ChainedAt(text, SpansFrom(text, from), from, k);
  }

  /** Each block of `spans` is the next block after the one before it, the first the next one from `from`. */
  predicate Chained(text: string, spans: seq<(nat, nat)>, from: nat)
    decreases |spans|
  {
    spans == [] || (NextSpan(text, from) == Some(spans[0]) && Chained(text, spans[1..], After(spans[0])))
  }

  lemma {:induction false} SpansChained(text: string, from: nat)
    ensures Chained(text, SpansFrom(text, from), from)
    decreases |SpansFrom(text, from)|
  {
    if SpansFrom(text, from) != [] {
      SpansStep(text, from);
      SpansChained(text, After(NextSpan(text, from).value));
    }
  }

  lemma {:induction false} ChainedAt(text: string, spans: seq<(nat, nat)>, from: nat, k: nat)
    requires Chained(text, spans, from) && k < |spans|
    ensures NextSpan(text, SearchStart(spans, from, k)) == Some(spans[k])
    decreases k
  {
    if k > 0 {
      ChainedAt(text, spans[1..], After(spans[0]), k - 1);
      assert spans == [spans[0]] + spans[1..];
      SearchShift(spans[0], spans[1..], from, k);
    }
  }

  lemma SearchShift(span: (nat, nat), tail: seq<(nat, nat)>, from: nat, k: nat)
    requires 1 <= k <= |tail|
    ensures ([span] + tail)[k] == tail[k - 1]
    ensures SearchStart([span] + tail, from, k) == SearchStart(tail, After(span), k - 1)
  {
    if k >= 2 { assert ([span] + tail)[k - 1] == tail[k - 2]; }
  }

  /** Where the search resumes after a block: just past its end marker. */
  function After(span: (nat, nat)): nat {
    span.1 + |End|
  }

  /** A non-empty list of blocks is the next block, then the blocks found after it. */
  lemma SpansStep(text: string, from: nat)
    requires SpansFrom(text, from) != []
    ensures NextSpan(text, from).Some?
    ensures SpansFrom(text, from) == [NextSpan(text, from).value] + SpansFrom(text, After(NextSpan(text, from).value))
    ensures |SpansFrom(text, from)| == 1 + |SpansFrom(text, After(NextSpan(text, from).value))|
  {
  }

  /** Every block is enclosed by its markers. */
  lemma SpansEnclosed(text: string, from: nat)
    ensures forall k :: 0 <= k < |SpansFrom(text, from)| ==>
      Enclosed(text, SpansFrom(text, from)[k].0, SpansFrom(text, from)[k].1)
  {
    forall k | 0 <= k < |SpansFrom(text, from)|
      ensures Enclosed(text, SpansFrom(text, from)[k].0, SpansFrom(text, from)[k].1)
    {
      SpanEnclosed(text, from, k);
    }
  }

  /** No begin marker lies between where block `k`'s search starts and its own begin marker. */
  predicate FirstBegin(text: string, spans: seq<(nat, nat)>, from: nat, k: nat)
    requires k < |spans|
  {
    SearchStart(spans, from, k) + |Begin| <= spans[k].0 &&
    forall j :: SearchStart(spans, from, k) <= j < spans[k].0 - |Begin| ==> !OccursAt(text, j, Begin)
  }

  /** Block `k`'s begin marker is the first one after the previous block. */
  lemma FirstBeginAt(text: string, from: nat, k: nat)
    requires k < |SpansFrom(text, from)|
    ensures FirstBegin(text, SpansFrom(text, from), from, k)
  {
    SpanIsNext(text, from, k);
    NextSpanFound(text, SearchStart(SpansFrom(text, from), from, k));
  }

  /** Each begin marker is the first one after the previous block: the blocks are in feed order and do not overlap. */
  lemma SpansInOrder(text: string, from: nat)
    ensures forall k :: 0 <= k < |SpansFrom(text, from)| ==> FirstBegin(text, SpansFrom(text, from), from, k)
  {
    forall k | 0 <= k < |SpansFrom(text, from)| ensures FirstBegin(text, SpansFrom(text, from), from, k) {
      FirstBeginAt(text, from, k);
    }
  }


  /** Nothing is missed: after the last block no begin marker is followed by an end marker. */
  lemma {:induction false} SpansComplete(text: string, from: nat)
    ensures NoPairAfter(text, SearchStart(SpansFrom(text, from), from, |SpansFrom(text, from)|))
    decreases |SpansFrom(text, from)|
  {
    if SpansFrom(text, from) != [] {
      SpansStep(text, from);
      SpansComplete(text, After(NextSpan(text, from).value));
      SearchEnd(NextSpan(text, from).value, SpansFrom(text, After(NextSpan(text, from).value)), from);
    } else {
      SpansNone(text, from);
      NextSpanFound(text, from);
    }
  }

  lemma SpansNone(text: string, from: nat)
    requires SpansFrom(text, from) == []
    ensures NextSpan(text, from).None?
  {
  }

  /** Past the last block, the search starts where it would after the last block of the tail. */
  lemma SearchEnd(span: (nat, nat), tail: seq<(nat, nat)>, from: nat)
    ensures SearchStart([span] + tail, from, |tail| + 1) == SearchStart(tail, span.1 + |End|, |tail|)
  {
    if |tail| > 0 {
      assert ([span] + tail)[|tail|] == tail[|tail| - 1];
    }
  }

  // Properties: `re.search(rf"{field}(?:;[^:]*)*:(.*)", block)`. After the
  // name comes `:` directly, or `;` and any text up to the first `:` (which
  // may cross line ends); the value is the rest of that line, stripped.

  /** `field` occurs at `p` and the parameter-and-colon part of the pattern matches after it. */
  predicate FieldAt(block: string, field: string, p: int) {
    OccursAt(block, p, field) && p + |field| < |block| &&
    (block[p + |field|] == ':' || block[p + |field|] == ';') &&
    ':' in block[p + |field|..]
  }

  /** The index of the first `:` at or after `i`. */
  function ColonFrom(block: string, i: nat): (r: nat)
    requires i <= |block| && ':' in block[i..]
    ensures i <= r < |block| && block[r] == ':' && ':' !in block[i..r]
    decreases |block| - i
  {
    if block[i] == ':' then i
    else
      assert block[i..] == [block[i]] + block[i + 1..];
      var r := ColonFrom(block, i + 1);
      assert block[i..r] == [block[i]] + block[i + 1..r];
      r
  }

  /** The leftmost position at or after `from` where the pattern matches. */
  function FieldMatch(block: string, field: string, from: nat): (r: Option<nat>)
    ensures r.Some? ==> from <= r.value && FieldAt(block, field, r.value)
    ensures r.Some? ==> forall j :: from <= j < r.value ==> !FieldAt(block, field, j)
    ensures r.None? ==> forall j :: from <= j ==> !FieldAt(block, field, j)
    decreases |block| - from
  {
    if from >= |block| then None
    else if FieldAt(block, field, from) then Some(from)
    else FieldMatch(block, field, from + 1)
  }

  /** The value read at a match at `p`: the rest of the line after the colon, stripped. */
  function ValueAt(block: string, field: string, p: nat): (r: string)
    requires FieldAt(block, field, p)
    ensures '\n' !in r && Stripped(r)
  {
    var line := FirstLine(block[ColonFrom(block, p + |field|) + 1..]);
    assert Trim(line) == line[TrimStart(line)..TrimEnd(line)];
    assert forall x :: x in Trim(line) ==> x in line;
    Trim(line)
  }

  /** `find_field(field, block)`: the stripped one-line value of the first match, or `""`. */
  function FindField(field: string, block: string): (r: string)
    ensures '\n' !in r && Stripped(r)
    ensures (forall p :: !FieldAt(block, field, p)) ==> r == ""
  {
    match FieldMatch(block, field, 0)
    case None => ""
    case Some(p) => ValueAt(block, field, p)
  }

  /** The value is read after the leftmost match of the pattern. */
  lemma FindFieldLeftmost(field: string, block: string, p: nat)
    requires FieldAt(block, field, p)
    requires forall j :: 0 <= j < p ==> !FieldAt(block, field, j)
    ensures FindField(field, block) == ValueAt(block, field, p)
  {
    assert FieldMatch(block, field, 0) == Some(p);
  }

  /** A property line `NAME:value` at the start of a block gives `value` when nothing before it matches. */
  lemma FindFieldSimpleLine(field: string, value: string, rest: string)
    requires field != [] && ':' !in field && ';' !in field
    requires '\n' !in value && Stripped(value)
    ensures FindField(field, field + ":" + value + "\n" + rest) == value
  {
    var tail := value + "\n" + rest;
    var block := field + ":" + tail;
    assert block == field + ":" + value + "\n" + rest;
    SimpleLineMatches(field, tail);
    FindFieldLeftmost(field, block, 0);
    FirstLineOf(value, rest);
    TrimStripped(value);
    assert ValueAt(block, field, 0) == Trim(FirstLine(tail));
  }

  /** The pattern matches at the start of `NAME:tail`, with the colon right after the name. */
  lemma SimpleLineMatches(field: string, tail: string)
    ensures FieldAt(field + ":" + tail, field, 0)
    ensures ColonFrom(field + ":" + tail, |field|) == |field|
    ensures (field + ":" + tail)[|field| + 1..] == tail
  {
    var block := field + ":" + tail;
    assert block[..|field|] == field;
    assert block[|field|] == ':';
    assert block[|field|..][0] == ':';
  }

  lemma {:induction false} FirstLineOf(line: string, rest: string)
    requires '\n' !in line
    ensures FirstLine(line + "\n" + rest) == line
    decreases |line|
  {
    if line == [] {
      assert (line + "\n" + rest)[0] == '\n';
    } else {
      assert (line + "\n" + rest)[1..] == line[1..] + "\n" + rest;
      FirstLineOf(line[1..], rest);
    }
  }

  // `clean_description`: cut at the first `---`, unescape `\n`, turn
  // ellipses (three dots, then two, with any whitespace around and
  // between them) into a blank line, collapse newline runs, strip.

  /** `re.sub(r'---.*', '', raw, flags=re.DOTALL)`: everything from the first `---` on is gone. */
  function CutAtRule(raw: string): (r: string)
    ensures |r| <= |raw| && r == raw[..|r|]
    ensures !Contains(r, "---")
    ensures r == raw || OccursAt(raw, |r|, "---")
  {
    match IndexOf(raw, "---", 0)
    case None =>
      ContainsIffIndexOf(raw, "---");
      raw
    case Some(i) =>
      assert forall j :: 0 <= j <= i - 3 && OccursAt(raw[..i], j, "---") ==> OccursAt(raw, j, "---") by {
        forall j | 0 <= j <= i - 3 && OccursAt(raw[..i], j, "---") ensures OccursAt(raw, j, "---") {
          assert raw[..i][j..j + 3] == raw[j..j + 3];
        }
      }
      raw[..i]
  }

  /** `str.replace('\\n', '\n')`: each two-character escape becomes a line end, left to right. */
  function Unescape(s: string): (r: string)
    ensures |r| <= |s|
  {
    if |s| < 2 then s
    else if s[0] == '\\' && s[1] == 'n' then "\n" + Unescape(s[2..])
    else [s[0]] + Unescape(s[1..])
  }

  lemma UnescapeHead(s: string)
    requires s != []
    ensures Unescape(s) != []
    ensures Unescape(s)[0] == (if |s| >= 2 && s[0] == '\\' && s[1] == 'n' then '\n' else s[0])
  {
  }

  /** No character `x` is directly followed by a character `y`. */
  predicate NoPair(r: string, x: char, y: char) {
    forall j :: 0 <= j < |r| - 1 ==> !(r[j] == x && r[j + 1] == y)
  }

  lemma NoPairJoin(a: string, b: string, x: char, y: char)
    requires NoPair(a, x, y) && NoPair(b, x, y)
    requires a != [] && b != [] ==> !(a[|a| - 1] == x && b[0] == y)
    ensures NoPair(a + b, x, y)
  {
    var r := a + b;
    forall j | 0 <= j < |r| - 1 ensures !(r[j] == x && r[j + 1] == y) {
      if j + 1 < |a| {
        assert r[j] == a[j] && r[j + 1] == a[j + 1];
      } else if j + 1 == |a| {
        assert r[j] == a[|a| - 1] && r[j + 1] == b[0];
      } else {
        assert r[j] == b[j - |a|] && r[j + 1] == b[j + 1 - |a|];
      }
    }
  }

  lemma NoPairAbsent(r: string, x: char, y: char)
    requires NoPair(r, x, y)
    ensures !Contains(r, [x, y])
  {
    forall j | 0 <= j <= |r| - 2 ensures !OccursAt(r, j, [x, y]) {
      assert r[j..j + 2][0] == r[j] && r[j..j + 2][1] == r[j + 1];
    }
  }

  /** No escape is left behind: the result has no backslash followed by `n`. */
  lemma UnescapeComplete(s: string)
    ensures !Contains(Unescape(s), "\\n")
  {
    UnescapeNoPair(s);
    NoPairAbsent(Unescape(s), '\\', 'n');
  }

  lemma {:induction false} UnescapeNoPair(s: string)
    ensures NoPair(Unescape(s), '\\', 'n')
    decreases |s|
  {
    if |s| >= 2 {
      var escape := s[0] == '\\' && s[1] == 'n';
      var rest := if escape then s[2..] else s[1..];
      UnescapeNoPair(rest);
      if !escape && s[0] == '\\' {
        UnescapeHead(rest);
      }
      NoPairJoin(if escape then "\n" else [s[0]], Unescape(rest), '\\', 'n');
    }
  }

  /**
   * What the replacement keeps: the text up to the first escape stays, the
   * escape becomes one line end and the rest is treated the same way; a
   * text with no escape is left as it is.
   */
  lemma UnescapeSpec(s: string)
    ensures IndexOf(s, "\\n", 0).None? ==> Unescape(s) == s
    ensures IndexOf(s, "\\n", 0).Some? ==>
      var i := IndexOf(s, "\\n", 0).value;
      Unescape(s) == s[..i] + "\n" + Unescape(s[i + 2..])
  {
    match IndexOf(s, "\\n", 0)
    case None =>
      NoEscapeBefore(s, |s|);
      UnescapePrefix(s, |s|);
      assert s[..|s|] == s && s[|s|..] == [];
    case Some(i) =>
      NoEscapeBefore(s, i);
      UnescapePrefix(s, i);
      UnescapeEscape(s, i);
  }

  /** No occurrence of the escape before `k` means no escape starts there. */
  lemma NoEscapeBefore(s: string, k: nat)
    requires forall j :: 0 <= j < k ==> !OccursAt(s, j, "\\n")
    ensures forall j :: 0 <= j < k ==> !EscapeAt(s, j)
  {
    forall j | 0 <= j < k ensures !EscapeAt(s, j) {
      assert !OccursAt(s, j, "\\n");
      if j + 2 <= |s| { assert s[j..j + 2] == [s[j], s[j + 1]]; }
    }
  }

  /** At an escape, the replacement writes one line end and goes on after it. */
  lemma UnescapeEscape(s: string, i: nat)
    requires OccursAt(s, i, "\\n")
    ensures Unescape(s[i..]) == "\n" + Unescape(s[i + 2..])
  {
    var t := s[i..];
    assert t[..2] == s[i..i + 2] == "\\n";
    assert t[0] == '\\' && t[1] == 'n';
    assert t[2..] == s[i + 2..];
  }

  /** An escape starts at `j`. */
  predicate EscapeAt(s: string, j: int) {
    0 <= j && j + 1 < |s| && s[j] == '\\' && s[j + 1] == 'n'
  }

  /** A prefix with no escape starting in it is copied as it is. */
  lemma {:induction false} UnescapePrefix(s: string, k: nat)
    requires k <= |s| && forall j :: 0 <= j < k ==> !EscapeAt(s, j)
    ensures Unescape(s) == s[..k] + Unescape(s[k..])
    decreases k
  {
    if k > 0 && |s| >= 2 {
      assert !EscapeAt(s, 0);
      var t := s[1..];
      forall j | 0 <= j < k - 1 ensures !EscapeAt(t, j) {
        assert !EscapeAt(s, j + 1);
      }
      UnescapePrefix(t, k - 1);
      assert t[k - 1..] == s[k..];
      assert [s[0]] + t[..k - 1] == s[..k];
    } else if k > 0 {
      assert s[..k] == s && s[k..] == [];
    }
  }

  /**
   * Where `\s*` followed by `dots` dots, each followed by `\s*`, ends when
   * it matches at `i`; none when it does not.
   */
  function DotsEnd(s: string, i: nat, dots: nat): (r: Option<nat>)
    requires i <= |s|
    ensures r.Some? ==> i + dots <= r.value <= |s|
    decreases dots
  {
    var j := SkipSpaces(s, i);
    if dots == 0 then Some(j)
    else if j < |s| && s[j] == '.' then DotsEnd(s, j + 1, dots - 1)
    else None
  }

  /** `re.sub` of the `dots`-dot pattern by a blank line, scanning from `i`. */
  function Ellipses(s: string, dots: nat, i: nat): string
    requires 0 < dots && i <= |s|
    decreases |s| - i
  {
    if i == |s| then []
    else match DotsEnd(s, i, dots)
      case Some(e) => "\n\n" + Ellipses(s, dots, e)
      case None => [s[i]] + Ellipses(s, dots, i + 1)
  }

  /** A period that survives the substitution at `i` is one the pattern does not match at. */
  lemma EllipsesHead(s: string, dots: nat, i: nat)
    requires 0 < dots && i <= |s|
    requires Ellipses(s, dots, i) != [] && Ellipses(s, dots, i)[0] == '.'
    ensures i < |s| && s[i] == '.' && DotsEnd(s, i, dots).None?
  {
  }

  /** After the two-dot substitution no two periods are adjacent. */
  lemma EllipsesNoDoublePeriod(s: string, i: nat)
    requires i <= |s|
    ensures !Contains(Ellipses(s, 2, i), "..")
  {
    EllipsesNoPair(s, i);
    NoPairAbsent(Ellipses(s, 2, i), '.', '.');
  }

  lemma {:induction false} EllipsesNoPair(s: string, i: nat)
    requires i <= |s|
    ensures NoPair(Ellipses(s, 2, i), '.', '.')
    decreases |s| - i
  {
    if i < |s| {
      match DotsEnd(s, i, 2) {
        case Some(e) =>
          EllipsesNoPair(s, e);
          EllipsesMatched(s, i, e);
        case None =>
          EllipsesNoPair(s, i + 1);
          EllipsesKept(s, i);
      }
    }
  }

  lemma EllipsesMatched(s: string, i: nat, e: nat)
    requires i < |s| && DotsEnd(s, i, 2) == Some(e) && NoPair(Ellipses(s, 2, e), '.', '.')
    ensures NoPair(Ellipses(s, 2, i), '.', '.')
  {
    NoPairJoin("\n\n", Ellipses(s, 2, e), '.', '.');
  }

  lemma EllipsesKept(s: string, i: nat)
    requires i < |s| && DotsEnd(s, i, 2).None? && NoPair(Ellipses(s, 2, i + 1), '.', '.')
    ensures NoPair(Ellipses(s, 2, i), '.', '.')
  {
    var tail := Ellipses(s, 2, i + 1);
    if s[i] == '.' && tail != [] && tail[0] == '.' {
      EllipsesHead(s, 2, i + 1);
      assert false;
    }
    NoPairJoin([s[i]], tail, '.', '.');
  }

  /**
   * What the substitution keeps: the text before the first match stays,
   * the match becomes a blank line and the scan resumes where the match
   * ends; with no match left, the rest of the text stays as it is.
   */
  lemma EllipsesKeeps(s: string, dots: nat, i: nat, m: nat)
    requires 0 < dots && i <= m <= |s|
    requires forall j :: i <= j < m ==> DotsEnd(s, j, dots).None?
    ensures Ellipses(s, dots, i) == s[i..m] + Ellipses(s, dots, m)
    ensures m < |s| && DotsEnd(s, m, dots).Some? ==>
      Ellipses(s, dots, i) == s[i..m] + "\n\n" + Ellipses(s, dots, DotsEnd(s, m, dots).value)
    ensures m == |s| ==> Ellipses(s, dots, i) == s[i..]
  {
    EllipsesCopies(s, dots, i, m);
    if m == |s| {
      assert Ellipses(s, dots, m) == [];
    }
  }

  /** Text where the pattern matches nowhere is copied as it is. */
  lemma {:induction false} EllipsesCopies(s: string, dots: nat, i: nat, m: nat)
    requires 0 < dots && i <= m <= |s|
    requires forall j :: i <= j < m ==> DotsEnd(s, j, dots).None?
    ensures Ellipses(s, dots, i) == s[i..m] + Ellipses(s, dots, m)
    decreases m - i
  {
    if i < m {
      EllipsesCopies(s, dots, i + 1, m);
      EllipsesCopyOne(s, dots, i);
      calc {
        Ellipses(s, dots, i);
        [s[i]] + Ellipses(s, dots, i + 1);
        [s[i]] + (s[i + 1..m] + Ellipses(s, dots, m));
        ([s[i]] + s[i + 1..m]) + Ellipses(s, dots, m);
        { assert [s[i]] + s[i + 1..m] == s[i..m]; }
        s[i..m] + Ellipses(s, dots, m);
      }
    }
  }

  /** Where the pattern does not match, the character is copied. */
  lemma EllipsesCopyOne(s: string, dots: nat, i: nat)
    requires 0 < dots && i < |s| && DotsEnd(s, i, dots).None?
    ensures Ellipses(s, dots, i) == [s[i]] + Ellipses(s, dots, i + 1)
  {
  }

  /** `re.sub(r'\n+', '\n', s)`: every run of line ends becomes one. */
  function CollapseNewlines(s: string): (r: string)
    ensures s != [] ==> r != [] && r[0] == s[0]
    ensures forall j :: 0 <= j < |r| - 1 ==> !(r[j] == '\n' && r[j + 1] == '\n')
  {
    if s == [] then []
    else if |s| >= 2 && s[0] == '\n' && s[1] == '\n' then CollapseNewlines(s[1..])
    else
      var rest := CollapseNewlines(s[1..]);
      assert forall j :: 1 <= j < |rest| ==> ([s[0]] + rest)[j] == rest[j - 1];
      [s[0]] + rest
  }

  /**
   * What the substitution keeps: a whole run of line ends, up to a
   * character that is not one, becomes a single line end before the
   * rest's result, and any other character stays, in place.
   */
  lemma {:induction false} CollapseNewlinesSpec(run: string, c: char, rest: string)
    ensures run != [] && (forall k :: 0 <= k < |run| ==> run[k] == '\n') && (rest == [] || rest[0] != '\n') ==>
      CollapseNewlines(run + rest) == "\n" + CollapseNewlines(rest)
    ensures c != '\n' ==> CollapseNewlines([c] + rest) == [c] + CollapseNewlines(rest)
    decreases |run|
  {
    if run != [] && (forall k :: 0 <= k < |run| ==> run[k] == '\n') && (rest == [] || rest[0] != '\n') {
      var s := run + rest;
      assert s[0] == '\n';
      if |run| == 1 {
        assert s[1..] == rest;
      } else {
        assert s[1] == run[1];
        assert s[1..] == run[1..] + rest;
        CollapseNewlinesSpec(run[1..], c, rest);
      }
    }
    if c != '\n' {
      assert ([c] + rest)[1..] == rest;
    }
  }

  /** `clean_description(raw_desc)`. */
  function CleanDescription(raw: string): (r: string)
    ensures Stripped(r)
    ensures forall j :: 0 <= j < |r| - 1 ==> !(r[j] == '\n' && r[j + 1] == '\n')
  {
    var unescaped := Unescape(CutAtRule(raw));
    var dotted := Ellipses(Ellipses(unescaped, 3, 0), 2, 0);
    var collapsed := CollapseNewlines(dotted);
    var r := Trim(collapsed);
    assert forall j :: 0 <= j < |r| ==> r[j] == collapsed[TrimStart(collapsed) + j];
    r
  }

  /**
   * A description the cleaning leaves alone: stripped, with no rule, no
   * escape, no two line ends in a row and no two periods with only
   * whitespace between them.
   */
  predicate CleanText(s: string) {
    && Stripped(s)
    && !Contains(s, "---")
    && !Contains(s, "\\n")
    && NoPair(s, '\n', '\n')
    && forall j :: 0 <= j < |s| ==> DotsEnd(s, j, 2).None?
  }

  /** Cleaning a clean description changes nothing. */
  lemma CleanDescriptionFixed(s: string)
    requires CleanText(s)
    ensures CleanDescription(s) == s
  {
    assert CutAtRule(s) == s;
    ContainsIffIndexOf(s, "\\n");
    UnescapeSpec(s);
    forall j | 0 <= j < |s| ensures DotsEnd(s, j, 3).None? {
      DotsFewer(s, j, 2);
    }
    EllipsesKeeps(s, 3, 0, |s|);
    EllipsesKeeps(s, 2, 0, |s|);
    CollapseNewlinesFixed(s);
    TrimStripped(s);
  }

  /** A pattern with more dots matches only where one with fewer does. */
  lemma {:induction false} DotsFewer(s: string, i: nat, dots: nat)
    requires i <= |s|
    ensures DotsEnd(s, i, dots + 1).Some? ==> DotsEnd(s, i, dots).Some?
    decreases dots
  {
    var j := SkipSpaces(s, i);
    if dots > 0 && j < |s| && s[j] == '.' {
      DotsFewer(s, j + 1, dots - 1);
    }
  }

  /** Text with no two line ends in a row is left as it is. */
  lemma {:induction false} CollapseNewlinesFixed(s: string)
    requires NoPair(s, '\n', '\n')
    ensures CollapseNewlines(s) == s
    decreases |s|
  {
    if s != [] {
      assert !(|s| >= 2 && s[0] == '\n' && s[1] == '\n');
      assert NoPair(s[1..], '\n', '\n') by {
        forall j | 0 <= j < |s| - 2 ensures !(s[1..][j] == '\n' && s[1..][j + 1] == '\n') {
          assert s[1..][j] == s[j + 1] && s[1..][j + 1] == s[j + 2];
        }
      }
      CollapseNewlinesFixed(s[1..]);
      assert [s[0]] + s[1..] == s;
    }
  }

  /** An escaped description: cut at the rule, the escape a line end, the ellipsis a line break. */
  lemma ExampleCleanDescription()
    ensures CleanDescription("a\\nb...c---d") == "a\nb\nc"
  {
    ExampleCutAtRule();
    ExampleUnescape();
    ExampleEllipses();
    ExampleCollapseNewlines();
    ExampleTrim();
    calc {
      CleanDescription("a\\nb...c---d");
      Trim(CollapseNewlines(Ellipses(Ellipses(Unescape(CutAtRule("a\\nb...c---d")), 3, 0), 2, 0)));
      Trim(CollapseNewlines(Ellipses(Ellipses(Unescape("a\\nb...c"), 3, 0), 2, 0)));
      Trim(CollapseNewlines(Ellipses(Ellipses("a\nb...c", 3, 0), 2, 0)));
      Trim(CollapseNewlines("a\nb\n\nc"));
      Trim("a\nb\nc");
      "a\nb\nc";
    }
  }

  lemma ExampleTrim()
    ensures Trim("a\nb\nc") == "a\nb\nc"
  {
    TrimStripped("a\nb\nc");
  }

  lemma ExampleCutAtRule()
    ensures CutAtRule("a\\nb...c---d") == "a\\nb...c"
  {
    var raw := "a\\nb...c---d";
    assert raw[8..11] == "---";
    forall j | 0 <= j < 8 ensures !OccursAt(raw, j, "---") {
      assert raw[j..j + 3][0] == raw[j];
    }
    assert IndexOf(raw, "---", 0) == Some(8);
  }

  lemma ExampleUnescape()
    ensures Unescape("a\\nb...c") == "a\nb...c"
  {
  }

  lemma ExampleEllipses()
    ensures Ellipses(Ellipses("a\nb...c", 3, 0), 2, 0) == "a\nb\n\nc"
  {
    ExampleThreeDots();
    ExampleTwoDots();
  }

  lemma ExampleThreeDots()
    ensures Ellipses("a\nb...c", 3, 0) == "a\nb\n\nc"
  {
    var u := "a\nb...c";
    assert u[0] == 'a' && u[1] == '\n' && u[2] == 'b' && u[6] == 'c';
    assert u[3] == '.' && u[4] == '.' && u[5] == '.';
    assert SkipSpaces(u, 6) == 6 && DotsEnd(u, 6, 0) == Some(6);
    assert SkipSpaces(u, 5) == 5 && DotsEnd(u, 5, 1) == Some(6);
    assert SkipSpaces(u, 4) == 4 && DotsEnd(u, 4, 2) == Some(6);
    assert SkipSpaces(u, 3) == 3 && DotsEnd(u, 3, 3) == Some(6);
    assert SkipSpaces(u, 6) == 6 && DotsEnd(u, 6, 3).None?;
    EllipsesCopyOne(u, 3, 6);
    assert Ellipses(u, 3, 6) == "c";
    assert Ellipses(u, 3, 3) == "\n\nc";
    assert SkipSpaces(u, 0) == 0 && DotsEnd(u, 0, 3).None?;
    assert SkipSpaces(u, 2) == 2 && SkipSpaces(u, 1) == 2;
    assert DotsEnd(u, 1, 3).None? && DotsEnd(u, 2, 3).None?;
    EllipsesCopies(u, 3, 0, 3);
    assert u[0..3] == "a\nb";
  }

  lemma ExampleTwoDots()
    ensures Ellipses("a\nb\n\nc", 2, 0) == "a\nb\n\nc"
  {
  }

  lemma ExampleCollapseNewlines()
    ensures CollapseNewlines("a\nb\n\nc") == "a\nb\nc"
  {
  }

  // The event record of `parse_event_block`: six fields, always present.

  datatype Event = Event(summary: string, description: string, location: string, url: string, start: string, end: string)

  /** A value as `find_field` returns it: one line, stripped. */
  predicate OneLine(v: string) { '\n' !in v && Stripped(v) }

  function ParseEventBlock(block: string): (r: Event)
    ensures OneLine(r.summary) && OneLine(r.description) && OneLine(r.location)
    ensures OneLine(r.url) && OneLine(r.start) && OneLine(r.end)
  {
    Event(FindField("SUMMARY", block), FindField("DESCRIPTION", block), FindField("LOCATION", block),
          FindField("URL", block), FindField("DTSTART", block), FindField("DTEND", block))
  }

  /** A field missing from the block is read as the empty string. */
  lemma MissingFieldIsEmpty(block: string)
    ensures (forall p :: !FieldAt(block, "SUMMARY", p)) ==> ParseEventBlock(block).summary == ""
    ensures (forall p :: !FieldAt(block, "DESCRIPTION", p)) ==> ParseEventBlock(block).description == ""
    ensures (forall p :: !FieldAt(block, "LOCATION", p)) ==> ParseEventBlock(block).location == ""
    ensures (forall p :: !FieldAt(block, "URL", p)) ==> ParseEventBlock(block).url == ""
    ensures (forall p :: !FieldAt(block, "DTSTART", p)) ==> ParseEventBlock(block).start == ""
    ensures (forall p :: !FieldAt(block, "DTEND", p)) ==> ParseEventBlock(block).end == ""
  {
  }

  /** `[parse_event_block(b) for b in events_raw]`. */
  function Events(blocks: seq<string>): (r: seq<Event>)
    ensures |r| == |blocks|
    ensures forall k :: 0 <= k < |blocks| ==> r[k] == ParseEventBlock(blocks[k])
  {
    if blocks == [] then [] else [ParseEventBlock(blocks[0])] + Events(blocks[1..])
  }

  // `datetime.strptime(s, "%Y%m%dT%H%M%SZ")`, with `datetime.max` when it
  // raises. Only the full-width 16-character form is accepted here.

  datatype Instant = At(year: nat, month: nat, day: nat, hour: nat, minute: nat, second: nat) | Max

  predicate IsLeap(y: nat) { y % 4 == 0 && (y % 100 != 0 || y % 400 == 0) }

  function DaysIn(y: nat, m: nat): nat
    requires 1 <= m <= 12
  {
    if m == 2 then (if IsLeap(y) then 29 else 28)
    else if m == 4 || m == 6 || m == 9 || m == 11 then 30
    else 31
  }

  /** A value `datetime` accepts: year 1 to 9999, a real calendar day, a time of day without leap seconds. */
  predicate Valid(t: Instant) {
    t.At? && 1 <= t.year <= 9999 && 1 <= t.month <= 12 && 1 <= t.day <= DaysIn(t.year, t.month) &&
    t.hour < 24 && t.minute < 60 && t.second < 60
  }

  function DigitValue(c: char): nat
    requires IsDigit(c)
  {
    c as int - '0' as int
  }

  function DigitChar(n: nat): char
    requires n < 10
  {
    ('0' as int + n) as char
  }

  /** The two-digit field at `i`. */
  function Two(s: string, i: nat): nat
    requires i + 2 <= |s| && IsDigit(s[i]) && IsDigit(s[i + 1])
  {
    10 * DigitValue(s[i]) + DigitValue(s[i + 1])
  }

  /** `%d` in a full-width string: two digits, or a space and a non-zero digit. */
  function DayField(s: string): Option<nat>
    requires |s| == 16
  {
    if IsDigit(s[6]) && IsDigit(s[7]) then Some(Two(s, 6))
    else if s[6] == ' ' && '1' <= s[7] <= '9' then Some(DigitValue(s[7]))
    else None
  }

  /** `%Y%m%d`, `T`, `%H%M%S`, `Z` in order; the letters match in either case. */
  predicate Shaped(s: string) {
    |s| == 16 && (forall i :: 0 <= i < 6 ==> IsDigit(s[i])) && (forall i :: 9 <= i < 15 ==> IsDigit(s[i])) &&
    (s[8] == 'T' || s[8] == 't') && (s[15] == 'Z' || s[15] == 'z')
  }

  /** `parse_datetime(dt_str)`: the instant written in `s`, or `Max` when `strptime` raises. */
  function ParseDateTime(s: string): (r: Instant)
    ensures r.At? ==> Valid(r) && Shaped(s)
  {
    if !Shaped(s) then Max
    else match DayField(s)
      case None => Max
      case Some(d) =>
        var t := At(1000 * DigitValue(s[0]) + 100 * DigitValue(s[1]) + Two(s, 2), Two(s, 4), d,
                    Two(s, 9), Two(s, 11), Two(s, 13));
        if Valid(t) then t else Max
  }

  /** `t.strftime("%Y%m%dT%H%M%SZ")`: the canonical text of a valid instant. */
  function Render(t: Instant): (r: string)
    requires Valid(t)
    ensures |r| == 16
  {
    [DigitChar(t.year / 1000), DigitChar(t.year / 100 % 10), DigitChar(t.year / 10 % 10), DigitChar(t.year % 10),
     DigitChar(t.month / 10), DigitChar(t.month % 10), DigitChar(t.day / 10), DigitChar(t.day % 10), 'T',
     DigitChar(t.hour / 10), DigitChar(t.hour % 10), DigitChar(t.minute / 10), DigitChar(t.minute % 10),
     DigitChar(t.second / 10), DigitChar(t.second % 10), 'Z']
  }

  lemma DigitCharValue(n: nat)
    requires n < 10
    ensures IsDigit(DigitChar(n)) && DigitValue(DigitChar(n)) == n
  {
  }

  lemma DigitValueChar(c: char)
    requires IsDigit(c)
    ensures DigitValue(c) < 10 && DigitChar(DigitValue(c)) == c
  {
  }

  /** The decimal digits of a number below 10000 put it back together. */
  lemma FourDigits(y: nat)
    requires y < 10000
    ensures y / 1000 < 10 && 1000 * (y / 1000) + 100 * (y / 100 % 10) + 10 * (y / 10 % 10) + y % 10 == y
  {
    var q1, d := y / 10, y % 10;
    var q2, c := q1 / 10, q1 % 10;
    var q3, b := q2 / 10, q2 % 10;
    assert y == 10 * q1 + d && q1 == 10 * q2 + c && q2 == 10 * q3 + b;
    DivideExactly(y, 100, q2, 10 * c + d);
    DivideExactly(y, 1000, q3, 100 * b + 10 * c + d);
  }

  /** Four decimal digits are the digits of the number they make. */
  lemma DigitsOfFour(a: nat, b: nat, c: nat, d: nat)
    requires a < 10 && b < 10 && c < 10 && d < 10
    ensures var y := 1000 * a + 100 * b + 10 * c + d;
      y / 1000 == a && y / 100 % 10 == b && y / 10 % 10 == c && y % 10 == d
  {
    var y := 1000 * a + 100 * b + 10 * c + d;
    DivideExactly(y, 1000, a, 100 * b + 10 * c + d);
    DivideExactly(y, 100, 10 * a + b, 10 * c + d);
    DivideExactly(10 * a + b, 10, a, b);
    DivideExactly(y, 10, 100 * a + 10 * b + c, d);
    DivideExactly(100 * a + 10 * b + c, 10, 10 * a + b, c);
  }

  /** Division by 10, 100 or 1000 recovers quotient and remainder. */
  lemma DivideExactly(y: nat, m: nat, q: nat, r: nat)
    requires m == 10 || m == 100 || m == 1000
    requires r < m && y == q * m + r
    ensures y / m == q && y % m == r
  {
    if m == 10 {
      assert y == 10 * q + r;
    } else if m == 100 {
      assert y == 100 * q + r;
    } else {
      assert y == 1000 * q + r;
    }
  }

  /** Two decimal digits are the digits of the number they make. */
  lemma DigitsOfTwo(a: nat, b: nat)
    requires a < 10 && b < 10
    ensures (10 * a + b) / 10 == a && (10 * a + b) % 10 == b
  {
  }

  /** A valid instant, written in the feed's form, parses back to itself. */
  lemma ParseRender(t: Instant)
    requires Valid(t)
    ensures ParseDateTime(Render(t)) == t
  {
    var s := Render(t);
    FourDigits(t.year);
    RenderDigits(t);
    assert Shaped(s);
    assert DayField(s) == Some(t.day);
  }

  /** The digits of a rendering spell out the fields of the instant. */
  lemma RenderDigits(t: Instant)
    requires Valid(t)
    ensures var s := Render(t);
      (forall i :: 0 <= i < 16 && i != 8 && i != 15 ==> IsDigit(s[i])) && s[8] == 'T' && s[15] == 'Z' &&
      DigitValue(s[0]) == t.year / 1000 && DigitValue(s[1]) == t.year / 100 % 10 &&
      DigitValue(s[2]) == t.year / 10 % 10 && DigitValue(s[3]) == t.year % 10 &&
      DigitValue(s[4]) == t.month / 10 && DigitValue(s[5]) == t.month % 10 &&
      DigitValue(s[6]) == t.day / 10 && DigitValue(s[7]) == t.day % 10 &&
      DigitValue(s[9]) == t.hour / 10 && DigitValue(s[10]) == t.hour % 10 &&
      DigitValue(s[11]) == t.minute / 10 && DigitValue(s[12]) == t.minute % 10 &&
      DigitValue(s[13]) == t.second / 10 && DigitValue(s[14]) == t.second % 10
  {
    FourDigits(t.year);
    forall n: nat | n < 10 ensures IsDigit(DigitChar(n)) && DigitValue(DigitChar(n)) == n {
      DigitCharValue(n);
    }
  }

  /** A canonical text (upper-case letters, two-digit day) is the rendering of what it parses to. */
  lemma RenderParse(s: string)
    requires ParseDateTime(s).At? && s[8] == 'T' && s[15] == 'Z' && s[6] != ' '
    ensures Render(ParseDateTime(s)) == s
  {
    var t := ParseDateTime(s);
    ParsedDigits(s);
    DigitsOfFour(DigitValue(s[0]), DigitValue(s[1]), DigitValue(s[2]), DigitValue(s[3]));
    DigitsOfTwo(DigitValue(s[4]), DigitValue(s[5]));
    DigitsOfTwo(DigitValue(s[6]), DigitValue(s[7]));
    DigitsOfTwo(DigitValue(s[9]), DigitValue(s[10]));
    DigitsOfTwo(DigitValue(s[11]), DigitValue(s[12]));
    DigitsOfTwo(DigitValue(s[13]), DigitValue(s[14]));
    RenderedDigits(t, s);
  }

  /** The fields of a parsed two-digit-day text, digit by digit. */
  lemma ParsedDigits(s: string)
    requires ParseDateTime(s).At? && s[6] != ' '
    ensures |s| == 16 && forall i :: 0 <= i < 16 && i != 8 && i != 15 ==> IsDigit(s[i])
    ensures var t := ParseDateTime(s);
      t.year == 1000 * DigitValue(s[0]) + 100 * DigitValue(s[1]) + 10 * DigitValue(s[2]) + DigitValue(s[3]) &&
      t.month == 10 * DigitValue(s[4]) + DigitValue(s[5]) && t.day == 10 * DigitValue(s[6]) + DigitValue(s[7]) &&
      t.hour == 10 * DigitValue(s[9]) + DigitValue(s[10]) && t.minute == 10 * DigitValue(s[11]) + DigitValue(s[12]) &&
      t.second == 10 * DigitValue(s[13]) + DigitValue(s[14])
  {
  }

  /** A rendering whose digits are those of `s`, with `s`'s letters, is `s`. */
  lemma RenderedDigits(t: Instant, s: string)
    requires Valid(t) && |s| == 16 && s[8] == 'T' && s[15] == 'Z'
    requires forall i :: 0 <= i < 16 && i != 8 && i != 15 ==> IsDigit(s[i])
    requires t.year / 1000 == DigitValue(s[0]) && t.year / 100 % 10 == DigitValue(s[1])
    requires t.year / 10 % 10 == DigitValue(s[2]) && t.year % 10 == DigitValue(s[3])
    requires t.month / 10 == DigitValue(s[4]) && t.month % 10 == DigitValue(s[5])
    requires t.day / 10 == DigitValue(s[6]) && t.day % 10 == DigitValue(s[7])
    requires t.hour / 10 == DigitValue(s[9]) && t.hour % 10 == DigitValue(s[10])
    requires t.minute / 10 == DigitValue(s[11]) && t.minute % 10 == DigitValue(s[12])
    requires t.second / 10 == DigitValue(s[13]) && t.second % 10 == DigitValue(s[14])
    ensures Render(t) == s
  {
    forall i | 0 <= i < 16 ensures Render(t)[i] == s[i] {
      if i != 8 && i != 15 {
        DigitValueChar(s[i]);
      }
    }
  }

  // Sorting by start: `events.sort(key=lambda e: parse_datetime(e["start"]))`.
  // Instants are compared field by field, year first; `datetime.max` lies
  // after every instant a 16-character text can denote.

  /** The fields of an instant, most significant first. */
  function Fields(t: Instant): seq<nat>
    requires t.At?
  {
    [t.year, t.month, t.day, t.hour, t.minute, t.second]
  }

  /** Lexicographic order on equally long field lists, decided by the first difference. */
  predicate LexLess(x: seq<nat>, y: seq<nat>)
    requires |x| == |y|
  {
    x != [] && (LexLess(x[..|x| - 1], y[..|y| - 1]) || (x[..|x| - 1] == y[..|y| - 1] && x[|x| - 1] < y[|y| - 1]))
  }

  /** Chronological order of `datetime` values, `datetime.max` last. */
  predicate Earlier(a: Instant, b: Instant) {
    a.At? && (b.Max? || LexLess(Fields(a), Fields(b)))
  }

  /** The fields read as base-100 digits: a sort key that orders like the fields. */
  function Packed(x: seq<nat>): nat {
    if x == [] then 0 else Packed(x[..|x| - 1]) * 100 + x[|x| - 1]
  }

  const MaxKey: int := 100_000_000_000_000

  function Key(t: Instant): int {
    if t.Max? then MaxKey else Packed(Fields(t))
  }

  lemma DigitStep(a: int, p: int, b: int, q: int)
    requires 0 <= p < 100 && 0 <= q < 100
    ensures a * 100 + p < b * 100 + q <==> a < b || (a == b && p < q)
    ensures a * 100 + p == b * 100 + q <==> a == b && p == q
  {
  }

  /** Packed keys compare like the field lists they come from, when every field but the first is below 100. */
  lemma {:induction false} PackedOrder(x: seq<nat>, y: seq<nat>)
    requires |x| == |y|
    requires forall i :: 1 <= i < |x| ==> x[i] < 100 && y[i] < 100
    ensures Packed(x) < Packed(y) <==> LexLess(x, y)
    ensures Packed(x) == Packed(y) <==> x == y
    decreases |x|
  {
    if |x| == 1 {
      assert x[..0] == y[..0] == [];
      assert x == [x[0]] && y == [y[0]];
    } else if |x| > 1 {
      PackedOrder(x[..|x| - 1], y[..|y| - 1]);
      PackedOrderStep(x, y);
    }
  }

  /** One more field: the packed keys compare like the lists when the shorter lists did. */
  lemma PackedOrderStep(x: seq<nat>, y: seq<nat>)
    requires |x| == |y| > 1 && x[|x| - 1] < 100 && y[|y| - 1] < 100
    requires Packed(x[..|x| - 1]) < Packed(y[..|y| - 1]) <==> LexLess(x[..|x| - 1], y[..|y| - 1])
    requires Packed(x[..|x| - 1]) == Packed(y[..|y| - 1]) <==> x[..|x| - 1] == y[..|y| - 1]
    ensures Packed(x) < Packed(y) <==> LexLess(x, y)
    ensures Packed(x) == Packed(y) <==> x == y
  {
    DigitStep(Packed(x[..|x| - 1]), x[|x| - 1], Packed(y[..|y| - 1]), y[|y| - 1]);
    SameInitAndLast(x, y);
  }

  /** Equally long non-empty lists are equal exactly when their fronts and their last elements are. */
  lemma SameInitAndLast<T>(x: seq<T>, y: seq<T>)
    requires |x| == |y| > 0
    ensures x == y <==> x[..|x| - 1] == y[..|y| - 1] && x[|x| - 1] == y[|y| - 1]
  {
    assert x == x[..|x| - 1] + [x[|x| - 1]] && y == y[..|y| - 1] + [y[|y| - 1]];
  }

  lemma KeyBelowMax(t: Instant)
    requires Valid(t)
    ensures 0 <= Key(t) < MaxKey
  {
    var f := Fields(t);
    assert f[..1] == [t.year] && f[..2] == [t.year, t.month] && f[..3] == [t.year, t.month, t.day];
    assert f[..4] == f[..3] + [t.hour] && f[..5] == f[..4] + [t.minute] && f == f[..5] + [t.second];
    assert [t.year][..0] == [];
    assert Packed(f[..1]) == t.year;
    assert f[..2][..1] == f[..1] && f[..3][..2] == f[..2];
    assert Packed(f[..2]) == t.year * 100 + t.month < 1_000_000;
    assert Packed(f[..3]) == Packed(f[..2]) * 100 + t.day < 100_000_000;
    assert Packed(f[..4]) < 10_000_000_000;
    assert Packed(f[..5]) < 1_000_000_000_000;
  }

  /** The sort key orders instants chronologically, and equal keys mean equal instants. */
  lemma KeyOrder(a: Instant, b: Instant)
    requires Valid(a) || a.Max?
    requires Valid(b) || b.Max?
    ensures Key(a) < Key(b) <==> Earlier(a, b)
    ensures Key(a) == Key(b) <==> a == b
  {
    if a.At? { KeyBelowMax(a); }
    if b.At? { KeyBelowMax(b); }
    if a.At? && b.At? {
      PackedOrder(Fields(a), Fields(b));
      if Fields(a) == Fields(b) {
        assert a.year == Fields(a)[0] == Fields(b)[0] == b.year;
        assert a.second == Fields(a)[5] == Fields(b)[5] == b.second;
      }
    }
  }

  function StartKey(e: Event): int {
    Key(ParseDateTime(e.start))
  }

  /** The events of a feed, in feed order. */
  function FeedEvents(icsText: string): seq<Event> {
    Events(EventBlocks(icsText))
  }

  /** `events = [...]` and `events.sort(key=...)`: the parsed events, sorted in place. */
  method LoadEvents(icsText: string) returns (events: array<Event>)
    ensures events[..] == StableSort.SortByKey(FeedEvents(icsText), StartKey)
  {
    var parsed := FeedEvents(icsText);
    events := new Event[|parsed|](i requires 0 <= i < |parsed| => parsed[i]);
    assert events[..] == parsed;
    StableSort.SortInPlace(events, StartKey);
  }

  /**
   * After the sort no event starts earlier than one before it; in
   * particular every event whose start does not parse comes after all
   * those whose start does.
   */
  lemma SortedByStart(events: seq<Event>, i: nat, j: nat)
    requires i < j < |events|
    ensures var sorted := StableSort.SortByKey(events, StartKey);
      !Earlier(ParseDateTime(sorted[j].start), ParseDateTime(sorted[i].start)) &&
      (ParseDateTime(sorted[i].start).Max? ==> ParseDateTime(sorted[j].start).Max?)
  {
    var sorted := StableSort.SortByKey(events, StartKey);
    StableSort.SortByKeySorted(events, StartKey);
    assert StartKey(sorted[i]) <= StartKey(sorted[j]);
    KeyOrder(ParseDateTime(sorted[j].start), ParseDateTime(sorted[i].start));
  }

  /**
   * The sort only reorders, and events with the same start (the
   * unparseable ones among them) keep their feed order.
   */
  lemma SortKeepsFeedOrder(events: seq<Event>, t: Instant)
    ensures multiset(StableSort.SortByKey(events, StartKey)) == multiset(events)
    ensures StableSort.WithKey(StableSort.SortByKey(events, StartKey), StartKey, Key(t)) ==
            StableSort.WithKey(events, StartKey, Key(t))
  {
    StableSort.SortByKeyPermutes(events, StartKey);
    StableSort.SortByKeyStable(events, StartKey, Key(t));
  }

  // `format_datetime`: the `strftime` text of a parsed instant is kept
  // abstract as the instant itself.

  datatype Shown = Formatted(at: Instant) | Verbatim(text: string)

  /** The instant a text denotes, to be written out, or the text itself when `strptime` raises. */
  function FormatDateTime(s: string): (r: Shown)
    ensures r.Verbatim? <==> ParseDateTime(s).Max?
    ensures r.Verbatim? ==> r.text == s
    ensures r.Formatted? ==> Valid(r.at) && r.at == ParseDateTime(s)
  {
    var t := ParseDateTime(s);
    if t.Max? then Verbatim(s) else Formatted(t)
  }

  /** A rendered instant is shown as that instant. */
  lemma FormatRendered(t: Instant)
    requires Valid(t)
    ensures FormatDateTime(Render(t)) == Formatted(t)
  {
    ParseRender(t);
  }

  // The RSVP link: the first `https?://duke.campusgroups.com/rsvp?id=\d+`
  // in the description, otherwise the event's URL field.

  const RsvpPath := "://duke.campusgroups.com/rsvp?id="

  /** The end of the run of digits starting at `i`. */
  function DigitRun(s: string, i: nat): (r: nat)
    requires i <= |s|
    ensures i <= r <= |s| && (r == |s| || !IsDigit(s[r]))
    ensures forall k :: i <= k < r ==> IsDigit(s[k])
    decreases |s| - i
  {
    if i < |s| && IsDigit(s[i]) then DigitRun(s, i + 1) else i
  }

  /** Where the link pattern matched at `p` ends (`\d+` takes every digit), if it matches there. */
  function RsvpEnd(s: string, p: nat): (r: Option<nat>)
    ensures r.Some? ==> p + 4 + |RsvpPath| < r.value <= |s|
  {
    if !OccursAt(s, p, "http") then None
    else
      var q := if p + 4 < |s| && s[p + 4] == 's' then p + 5 else p + 4;
      var d := q + |RsvpPath|;
      if OccursAt(s, q, RsvpPath) && d < |s| && IsDigit(s[d]) then Some(DigitRun(s, d)) else None
  }

  /** The leftmost match at or after `from`, as `[start, end)`. */
  function FirstRsvp(s: string, from: nat): (r: Option<(nat, nat)>)
    ensures r.Some? ==> from <= r.value.0 && RsvpEnd(s, r.value.0) == Some(r.value.1)
    ensures r.Some? ==> forall j :: from <= j < r.value.0 ==> RsvpEnd(s, j).None?
    ensures r.None? ==> forall j :: from <= j ==> RsvpEnd(s, j).None?
    decreases |s| - from
  {
    if from >= |s| then None
    else match RsvpEnd(s, from)
      case Some(e) => Some((from, e))
      case None => FirstRsvp(s, from + 1)
  }

  /** A matched link starts with `http`, holds the RSVP path and ends in a digit. */
  lemma RsvpMatchShape(s: string, p: nat, q: nat)
    requires RsvpEnd(s, p) == Some(q)
    ensures |s[p..q]| > 4 + |RsvpPath| && s[p..q][..4] == "http" && IsDigit(s[p..q][q - p - 1])
    ensures Contains(s[p..q], RsvpPath) && Contains(s, s[p..q])
  {
    var at := if p + 4 < |s| && s[p + 4] == 's' then 5 else 4;
    OccursInSlice(s, p, q, at, RsvpPath);
    OccursInSlice(s, p, q, 0, "http");
    SliceContained(s, p, q);
  }

  /** The match `re.search` finds: one at `p`, and none starting before it. */
  predicate LeftmostRsvp(s: string, p: nat) {
    RsvpEnd(s, p).Some? && forall j :: 0 <= j < p ==> RsvpEnd(s, j).None?
  }

  /**
   * The RSVP link of an event: the text of the leftmost link in the
   * description, taking every digit at its end; without one (FirstRsvp
   * finds a match exactly when some position has one), the URL field.
   * Such a link starts with `http`, holds the RSVP path and ends in a digit.
   */
  function RsvpLink(e: Event): (r: string)
    ensures FirstRsvp(e.description, 0).None? ==> r == e.url
    ensures FirstRsvp(e.description, 0).Some? ==>
      exists p: nat :: LeftmostRsvp(e.description, p) && r == e.description[p..RsvpEnd(e.description, p).value]
    ensures FirstRsvp(e.description, 0).Some? ==>
      |r| > 4 + |RsvpPath| && r[..4] == "http" && Contains(r, RsvpPath) && IsDigit(r[|r| - 1])
  {
    match FirstRsvp(e.description, 0)
    case None => e.url
    case Some((p, q)) =>
      RsvpMatchShape(e.description, p, q);
      assert LeftmostRsvp(e.description, p);
      e.description[p..q]
  }

  // The document: a header, then for each event its title, an information
  // table, the description when there is one, and a divider.

  /** `escape(text).replace('\n', '<br/>')` on one character. */
  function HtmlChar(c: char): string {
    if c == '&' then "&amp;"
    else if c == '<' then "&lt;"
    else if c == '>' then "&gt;"
    else if c == '\n' then "<br/>"
    else [c]
  }

  function Html(s: string): (r: string)
    ensures |r| >= |s|
    ensures r == [] <==> s == []
  {
    if s == [] then [] else HtmlChar(s[0]) + Html(s[1..])
  }

  predicate StartsWith(t: string, w: string) { |w| <= |t| && t[..|w|] == w }

  /** Reads markup back: the four entities and line breaks become the characters they stand for. */
  function Unhtml(t: string): string
    decreases |t|
  {
    if t == [] then []
    else if StartsWith(t, "&amp;") then "&" + Unhtml(t[5..])
    else if StartsWith(t, "&lt;") then "<" + Unhtml(t[4..])
    else if StartsWith(t, "&gt;") then ">" + Unhtml(t[4..])
    else if StartsWith(t, "<br/>") then "\n" + Unhtml(t[5..])
    else [t[0]] + Unhtml(t[1..])
  }

  lemma UnhtmlAmp(rest: string)
    ensures Unhtml("&amp;" + rest) == "&" + Unhtml(rest)
  {
    var t := "&amp;" + rest;
    assert t[..5] == "&amp;" && t[5..] == rest;
  }

  lemma UnhtmlLt(rest: string)
    ensures Unhtml("&lt;" + rest) == "<" + Unhtml(rest)
  {
    var t := "&lt;" + rest;
    assert !StartsWith(t, "&amp;") by { assert t[1] == 'l'; }
    assert t[..4] == "&lt;" && t[4..] == rest;
  }

  lemma UnhtmlGt(rest: string)
    ensures Unhtml("&gt;" + rest) == ">" + Unhtml(rest)
  {
    var t := "&gt;" + rest;
    assert !StartsWith(t, "&amp;") && !StartsWith(t, "&lt;") by { assert t[1] == 'g'; }
    assert t[..4] == "&gt;" && t[4..] == rest;
  }

  lemma UnhtmlBreak(rest: string)
    ensures Unhtml("<br/>" + rest) == "\n" + Unhtml(rest)
  {
    var t := "<br/>" + rest;
    assert !StartsWith(t, "&amp;") && !StartsWith(t, "&lt;") && !StartsWith(t, "&gt;") by { assert t[0] == '<'; }
    assert t[..5] == "<br/>" && t[5..] == rest;
  }

  lemma UnhtmlPlain(c: char, rest: string)
    requires c != '&' && c != '<'
    ensures Unhtml([c] + rest) == [c] + Unhtml(rest)
  {
    var t := [c] + rest;
    assert t[0] == c && t[1..] == rest;
  }

  /** Reading back the markup of one character gives the character. */
  lemma UnhtmlStep(c: char, rest: string)
    ensures Unhtml(HtmlChar(c) + rest) == [c] + Unhtml(rest)
  {
    if c == '&' {
      UnhtmlAmp(rest);
    } else if c == '<' {
      UnhtmlLt(rest);
    } else if c == '>' {
      UnhtmlGt(rest);
    } else if c == '\n' {
      UnhtmlBreak(rest);
    } else {
      UnhtmlPlain(c, rest);
    }
  }

  /** The markup loses nothing: reading it back gives the cleaned description. */
  lemma {:induction false} HtmlRoundTrip(s: string)
    ensures Unhtml(Html(s)) == s
    decreases |s|
  {
    if s != [] {
      HtmlRoundTrip(s[1..]);
      UnhtmlStep(s[0], Html(s[1..]));
      assert s == [s[0]] + s[1..];
    }
  }

  const CalendarTitle := "Upcoming Duke Muslim Life Events"

  datatype InfoRow = When(start: Shown, end: Shown) | Where(location: string) | Rsvp(link: string)

  datatype StoryItem =
    | Header(text: string)
    | EventTitle(text: string)
    | InfoTable(rows: seq<InfoRow>)
    | Spacer(height: nat)
    | Description(html: string)
    | Divider

  /** The rows of an event's information table: when, where, and the RSVP link when there is one. */
  function InfoRows(e: Event): seq<InfoRow> {
    TableRows(FormatDateTime(e.start), FormatDateTime(e.end), e.location, RsvpLink(e))
  }

  function TableRows(start: Shown, end: Shown, location: string, link: string): seq<InfoRow> {
    [When(start, end), Where(location)] + (if link != "" then [Rsvp(link)] else [])
  }

  /** An entry: the title, the table, the description when there is one, the divider. */
  function EntryItems(title: string, rows: seq<InfoRow>, html: string): seq<StoryItem> {
    [EventTitle(title), InfoTable(rows)] +
    (if html != "" then [Spacer(6), Description("<br/>" + html)] else []) +
    [Spacer(8), Divider, Spacer(12)]
  }

  /** What one pass of the event loop appends to the story. */
  function EventItems(e: Event): seq<StoryItem> {
    EntryItems(e.summary, InfoRows(e), Html(CleanDescription(e.description)))
  }

  function AllItems(events: seq<Event>): seq<StoryItem> {
    if events == [] then [] else AllItems(events[..|events| - 1]) + EventItems(events[|events| - 1])
  }

  /** The whole story: the header, then every event in order. */
  function StoryOf(events: seq<Event>): seq<StoryItem> {
    [Header(CalendarTitle)] + AllItems(events)
  }

  /** One pass of the event loop: the title, the table, the description when there is one, the divider. */
  method AppendEvent(prior: seq<StoryItem>, event: Event) returns (story: seq<StoryItem>)
    ensures story == prior + EventItems(event)
  {
    var start := FormatDateTime(event.start);
    var end := FormatDateTime(event.end);
    var rsvpUrl := RsvpLink(event);
    var descHtml := Html(CleanDescription(event.description));
    story := AppendEntry(prior, event.summary, start, end, event.location, rsvpUrl, descHtml);
  }

  /** The appends themselves, on the values computed from the event. */
  method AppendEntry(prior: seq<StoryItem>, title: string, start: Shown, end: Shown, location: string,
                     rsvpUrl: string, descHtml: string) returns (story: seq<StoryItem>)
    ensures story == prior + EntryItems(title, TableRows(start, end, location, rsvpUrl), descHtml)
  {
    story := prior + [EventTitle(title)];
    ghost var entry := [EventTitle(title)];
    var info := [When(start, end), Where(location)];
    if rsvpUrl != "" {
      info := info + [Rsvp(rsvpUrl)];
    }
    assert info == TableRows(start, end, location, rsvpUrl);
    story, entry := story + [InfoTable(info)], entry + [InfoTable(info)];
    if descHtml != "" {
      story, entry := story + [Spacer(6), Description("<br/>" + descHtml)], entry + [Spacer(6), Description("<br/>" + descHtml)];
    }
    story, entry := story + [Spacer(8), Divider, Spacer(12)], entry + [Spacer(8), Divider, Spacer(12)];
    assert story == prior + entry;
  }

  lemma AllItemsStep(events: seq<Event>, i: nat)
    requires i < |events|
    ensures [Header(CalendarTitle)] + AllItems(events[..i]) + EventItems(events[i]) ==
            [Header(CalendarTitle)] + AllItems(events[..i + 1])
  {
    assert events[..i + 1][..i] == events[..i];
  }

  /** The `for event in events` loop that fills `story`. */
  method BuildStory(events: seq<Event>) returns (story: seq<StoryItem>)
    ensures story == StoryOf(events)
  {
    story := [Header(CalendarTitle)];
    var i := 0;
    while i < |events|
      invariant 0 <= i <= |events|
      invariant story == [Header(CalendarTitle)] + AllItems(events[..i])
    {
      story := AppendEvent(story, events[i]);
      AllItemsStep(events, i);
      i := i + 1;
    }
    assert events[..i] == events;
  }

  /** `events` parsed from the feed, sorted, and laid out. */
  method CalendarStory(icsText: string) returns (story: seq<StoryItem>)
    ensures story == StoryOf(StableSort.SortByKey(FeedEvents(icsText), StartKey))
  {
    var events := LoadEvents(icsText);
    story := BuildStory(events[..]);
  }

  /** The titles in a story, in order. */
  function Titles(items: seq<StoryItem>): seq<string> {
    if items == [] then []
    else Titles(items[..|items| - 1]) + (if items[|items| - 1].EventTitle? then [items[|items| - 1].text] else [])
  }

  function Summaries(events: seq<Event>): (r: seq<string>)
    ensures |r| == |events|
    ensures forall k :: 0 <= k < |events| ==> r[k] == events[k].summary
  {
    if events == [] then [] else Summaries(events[..|events| - 1]) + [events[|events| - 1].summary]
  }

  lemma {:induction false} TitlesAppend(a: seq<StoryItem>, b: seq<StoryItem>)
    ensures Titles(a + b) == Titles(a) + Titles(b)
    decreases |b|
  {
    if b == [] {
      assert a + b == a;
    } else {
      var b' := b[..|b| - 1];
      TitlesAppend(a, b');
      assert (a + b)[..|a + b| - 1] == a + b';
    }
  }

  /** An entry carries exactly one title. */
  lemma EntryTitles(title: string, rows: seq<InfoRow>, html: string)
    ensures Titles(EntryItems(title, rows, html)) == [title]
  {
    var head := [EventTitle(title), InfoTable(rows)];
    var mid: seq<StoryItem> := if html != "" then [Spacer(6), Description("<br/>" + html)] else [];
    var tail := [Spacer(8), Divider, Spacer(12)];
    TitlesAppend(head + mid, tail);
    TitlesAppend(head, mid);
    assert head[..1] == [EventTitle(title)] && [EventTitle(title)][..0] == [];
    assert Titles(head) == [title];
    if html != "" {
      assert mid[..1] == [Spacer(6)] && [Spacer(6)][..0] == [];
    }
    assert Titles(mid) == [];
    assert tail[..2] == [Spacer(8), Divider] && tail[..2][..1] == [Spacer(8)] && [Spacer(8)][..0] == [];
    assert Titles(tail) == [];
  }

  /** An event's entry is titled with its summary, once. */
  lemma EventTitles(e: Event)
    ensures Titles(EventItems(e)) == [e.summary]
  {
    EntryTitles(e.summary, InfoRows(e), Html(CleanDescription(e.description)));
  }

  /** The story titles each event once, with its summary, in the order of the events. */
  lemma {:induction false} StoryTitles(events: seq<Event>)
    ensures Titles(StoryOf(events)) == Summaries(events)
    decreases |events|
  {
    TitlesAppend([Header(CalendarTitle)], AllItems(events));
    assert [Header(CalendarTitle)][..0] == [];
    if events != [] {
      var init := events[..|events| - 1];
      StoryTitles(init);
      TitlesAppend([Header(CalendarTitle)], AllItems(init));
      TitlesAppend(AllItems(init), EventItems(events[|events| - 1]));
      EventTitles(events[|events| - 1]);
    }
  }

  /** An event's table has an RSVP row exactly when its link is non-empty, and that row holds the link. */
  lemma RsvpRow(e: Event)
    ensures (exists k :: 0 <= k < |InfoRows(e)| && InfoRows(e)[k].Rsvp?) <==> RsvpLink(e) != ""
    ensures forall k :: 0 <= k < |InfoRows(e)| && InfoRows(e)[k].Rsvp? ==> InfoRows(e)[k].link == RsvpLink(e)
  {
    if RsvpLink(e) != "" {
      assert InfoRows(e)[2].Rsvp?;
    }
  }

  predicate HasDescription(items: seq<StoryItem>) {
    exists k :: 0 <= k < |items| && items[k].Description?
  }

  /** An entry has a description paragraph exactly when its markup is non-empty. */
  lemma EntryDescription(title: string, rows: seq<InfoRow>, html: string)
    ensures HasDescription(EntryItems(title, rows, html)) <==> html != ""
  {
    if html != "" {
      assert EntryItems(title, rows, html)[3].Description?;
    }
  }

  /** An event's entry has a description paragraph exactly when its cleaned description is non-empty. */
  lemma DescriptionShown(e: Event)
    ensures HasDescription(EventItems(e)) <==> CleanDescription(e.description) != ""
  {
    EntryDescription(e.summary, InfoRows(e), Html(CleanDescription(e.description)));
  }
}
