/**
 * The campus-hours side of the scrapers: the fixed table from campus-hours
 * names to menu-site names and its inverse, the comma insertion that
 * separates run-together time ranges, and the row loop that fills the
 * hours dictionary (`get_dining_hours` in src/nutri_scrape.py and
 * src/bot_scrape.py) or prints one line per row (src/test_get_timings.py).
 */
module DiningHours {
  import opened Wrappers
  import opened Text
  import opened Dicts

  // ---------------------------------------------------------------------
  // Names
  // ---------------------------------------------------------------------

  /** What a restaurant without known hours shows. */
  const NoHours := "Hours not available"

  /** `dining_hours.get(restaurant, "Hours not available")`. */
  function HoursFor(hours: Dict<string>, restaurant: string): (r: string)
    ensures restaurant in Keys(hours) ==> Get(hours, restaurant) == Some(r)
    ensures restaurant !in Keys(hours) ==> r == NoHours
  {
    Get(hours, restaurant).GetOr(NoHours)
  }

  /** Campus-hours name to menu-site name, in the order the table lists them. */
  const NameTable: Dict<string> := [
    ("Bella Union", "Bella Union"),
    ("Beyu Blue Coffee", "Beyu Blue Coffee"),
    ("Bseisu Coffee Bar", "Bseisu Coffee Bar"),
    ("Cafe", "Cafe"),
    ("Cafe' 300", "Café 300"),
    ("Freeman Center for Jewish Life", "Freeman Café"),
    ("Ginger & Soy", "Ginger + Soy"),
    ("Gothic Grill", "Gothic Grill"),
    ("Gyotaku", "Gyotaku"),
    ("Il Forno", "Il Forno"),
    ("It's Thyme", "It's Thyme"),
    ("JB's Roasts and Chops", "J.B.'s Roast & Chops"),
    ("Marketplace", "Marketplace"),
    ("Nasher Museum Cafe", "Nasher Museum Café"),
    ("Red Mango Cafe", "Red Mango"),
    ("Saladelia Cafe at Perkins", "Saladalia @ The Perk"),
    ("Saladelia Cafe at Sanford", "Sanford Deli"),
    ("Sazon", "Sazon"),
    ("Sprout", "Sprout"),
    ("Tandoor", "Tandoor Indian Cuisine"),
    ("The Devil's Krafthouse", "The Devils Krafthouse"),
    ("Farmstead", "The Farmstead"),
    ("Pitchfork's", "The PitchFork"),
    ("The Skillet", "The Skillet"),
    ("Trinity Cafe", "Trinity Cafe"),
    ("Twinnie's", "Twinnie's"),
    ("Zweli's Cafe at Duke Divinity", "Zweli's Café at Duke Divinity")
  ]

  /**
   * Row `i` of the table shares neither name with any later row; the proof
   * looks at each row on its own, a few rows per helper.
   */
  lemma RowDistinct(i: nat)
    requires i < |NameTable|
    ensures forall j :: i < j < |NameTable| ==> NameTable[j].0 != NameTable[i].0
    ensures forall j :: i < j < |NameTable| ==> NameTable[j].1 != NameTable[i].1
  {
    if i < 2 {
      RowsDistinct0To2(i);
    } else if i < 4 {
      RowsDistinct2To4(i);
    } else if i < 6 {
      RowsDistinct4To6(i);
    } else if i < 8 {
      RowsDistinct6To8(i);
    } else if i < 11 {
      RowsDistinct8To11(i);
    } else if i < 14 {
      RowsDistinct11To14(i);
    } else if i < 18 {
      RowsDistinct14To18(i);
    } else {
      RowsDistinct18On(i);
    }
  }

  lemma RowsDistinct0To2(i: nat)
    requires 0 <= i < 2
    ensures forall j :: i < j < |NameTable| ==> NameTable[j].0 != NameTable[i].0
    ensures forall j :: i < j < |NameTable| ==> NameTable[j].1 != NameTable[i].1
  {
    if i == 0 {
    }
  }

  lemma RowsDistinct2To4(i: nat)
    requires 2 <= i < 4
    ensures forall j :: i < j < |NameTable| ==> NameTable[j].0 != NameTable[i].0
    ensures forall j :: i < j < |NameTable| ==> NameTable[j].1 != NameTable[i].1
  {
    if i == 2 {
    }
  }

  lemma RowsDistinct4To6(i: nat)
    requires 4 <= i < 6
    ensures forall j :: i < j < |NameTable| ==> NameTable[j].0 != NameTable[i].0
    ensures forall j :: i < j < |NameTable| ==> NameTable[j].1 != NameTable[i].1
  {
    if i == 4 {
    }
  }

  lemma RowsDistinct6To8(i: nat)
    requires 6 <= i < 8
    ensures forall j :: i < j < |NameTable| ==> NameTable[j].0 != NameTable[i].0
    ensures forall j :: i < j < |NameTable| ==> NameTable[j].1 != NameTable[i].1
  {
    if i == 6 {
    }
  }

  lemma RowsDistinct8To11(i: nat)
    requires 8 <= i < 11
    ensures forall j :: i < j < |NameTable| ==> NameTable[j].0 != NameTable[i].0
    ensures forall j :: i < j < |NameTable| ==> NameTable[j].1 != NameTable[i].1
  {
    if i == 8 {
    } else if i == 9 {
    }
  }

  lemma RowsDistinct11To14(i: nat)
    requires 11 <= i < 14
    ensures forall j :: i < j < |NameTable| ==> NameTable[j].0 != NameTable[i].0
    ensures forall j :: i < j < |NameTable| ==> NameTable[j].1 != NameTable[i].1
  {
    if i == 11 {
    } else if i == 12 {
    }
  }

  lemma RowsDistinct14To18(i: nat)
    requires 14 <= i < 18
    ensures forall j :: i < j < |NameTable| ==> NameTable[j].0 != NameTable[i].0
    ensures forall j :: i < j < |NameTable| ==> NameTable[j].1 != NameTable[i].1
  {
    if i == 14 {
    } else if i == 15 {
    } else if i == 16 {
    }
  }

  lemma RowsDistinct18On(i: nat)
    requires 18 <= i < |NameTable|
    ensures forall j :: i < j < |NameTable| ==> NameTable[j].0 != NameTable[i].0
    ensures forall j :: i < j < |NameTable| ==> NameTable[j].1 != NameTable[i].1
  {
    if i == 18 {
    } else if i == 19 {
    } else if i == 20 {
    } else if i == 21 {
    } else if i == 22 {
    } else if i == 23 {
    } else if i == 24 {
    } else if i == 25 {
    }
  }

  /** A table whose rows pairwise differ in both names is a dictionary both ways. */
  lemma DistinctRows(d: Dict<string>)
    requires forall i, j :: 0 <= i < j < |d| ==> d[j].0 != d[i].0 && d[j].1 != d[i].1
    ensures Valid(d) && Distinct(Values(d))
  {
  }

  /** The table lists no campus-hours name twice and no menu-site name twice. */
  lemma NameTableDistinct()
    ensures Valid(NameTable) && Distinct(Values(NameTable))
  {
    forall i | 0 <= i < |NameTable| {
      RowDistinct(i);
    }
    DistinctRows(NameTable);
  }

  /** `names.get(campus, campus)`: the menu-site name, or the campus name itself when the table lacks it. */
  function DisplayName(names: Dict<string>, campus: string): (r: string)
    ensures campus in Keys(names) ==> Get(names, campus) == Some(r)
    ensures campus !in Keys(names) ==> r == campus
  {
    Get(names, campus).GetOr(campus)
  }

  /**
   * For a table that repeats no name on either side, as the source's does
   * (NameTableDistinct), the display name is a menu-site name that leads
   * back to the campus name through the inverted table; names the table
   * lacks are kept.
   */
  lemma DisplayNameSpec(names: Dict<string>, campus: string)
    requires Valid(names) && Distinct(Values(names))
    ensures campus in Keys(names) ==>
      DisplayName(names, campus) in Values(names)
      && Get(Invert(names), DisplayName(names, campus)) == Some(campus)
    ensures campus !in Keys(names) ==> DisplayName(names, campus) == campus
  {
    var r := DisplayName(names, campus);
    InvertRoundTrip(names, campus, r);
  }

  // ---------------------------------------------------------------------
  // Hours text
  // ---------------------------------------------------------------------

  /** What must follow `am`/`pm` for a separator to go in: a digit, or `Noon`/`Midnight`. */
  datatype Lookahead = Digit | NoonOrMidnight

  predicate StartsWith(t: string, w: string) {
    |w| <= |t| && t[..|w|] == w
  }

  /** The text `t` begins the way the lookahead `(?=\d)` or `(?=Noon|Midnight)` asks. */
  predicate Leads(t: string, la: Lookahead) {
    match la
    case Digit => t != [] && IsDigit(t[0])
    case NoonOrMidnight => StartsWith(t, "Noon") || StartsWith(t, "Midnight")
  }

  /** The lookbehind `(?<=[ap]m)` holds at position `p`. */
  predicate AfterMeridiem(s: string, p: int) {
    2 <= p <= |s| && (s[p - 2] == 'a' || s[p - 2] == 'p') && s[p - 1] == 'm'
  }

  /** The empty pattern `(?<=[ap]m)(?=...)` matches at position `p`. */
  predicate Boundary(s: string, p: int, la: Lookahead) {
    AfterMeridiem(s, p) && Leads(s[p..], la)
  }

  predicate NoBoundary(s: string, la: Lookahead) {
    forall p :: 0 <= p <= |s| ==> !Boundary(s, p, la)
  }

  /** The output of the substitution for the characters of `s` from `i` on. */
  function InsertFrom(s: string, la: Lookahead, i: nat): string
    requires i <= |s|
    decreases |s| - i
  {
    if i == |s| then []
    else (if Boundary(s, i, la) then ", " else "") + [s[i]] + InsertFrom(s, la, i + 1)
  }

  /**
   * `re.sub(r'(?<=[ap]m)(?=...)', ', ', s)`: the pattern only matches the
   * empty string, so ", " goes in at every position where it matches, all
   * positions being judged on the original text.
   */
  function Insert(s: string, la: Lookahead): string {
    InsertFrom(s, la, 0)
  }

  /** The two substitutions applied to a raw hours cell, digits first. */
  function FormatHours(raw: string): string {
    Insert(Insert(raw, Digit), NoonOrMidnight)
  }

  /** Where the pattern never matches, the text comes out as it went in. */
  lemma {:induction false} InsertNoBoundary(s: string, la: Lookahead, i: nat)
    requires i <= |s| && NoBoundary(s, la)
    ensures InsertFrom(s, la, i) == s[i..]
    decreases |s| - i
  {
    if i < |s| {
      InsertNoBoundary(s, la, i + 1);
      assert s[i..] == [s[i]] + s[i + 1..];
    }
  }

  /** An output that does not start with the separator starts with the next input character. */
  lemma NoSeparatorAhead(s: string, la: Lookahead, j: nat)
    requires j <= |s|
    requires InsertFrom(s, la, j) != [] && InsertFrom(s, la, j)[0] != ','
    ensures j < |s| && !Boundary(s, j, la)
    ensures InsertFrom(s, la, j) == [s[j]] + InsertFrom(s, la, j + 1)
  {
  }

  /** A prefix without commas in the output is a prefix of the input at the same point. */
  lemma {:induction false} PrefixTransfers(s: string, la: Lookahead, j: nat, w: string)
    requires j <= |s| && ',' !in w && StartsWith(InsertFrom(s, la, j), w)
    ensures StartsWith(s[j..], w)
    decreases |w|
  {
    if w != [] {
      var u := InsertFrom(s, la, j);
      assert u[0] == w[0];
      NoSeparatorAhead(s, la, j);
      var u' := InsertFrom(s, la, j + 1);
      assert StartsWith(u', w[1..]) by {
        assert u'[..|w| - 1] == u[1..|w|];
      }
      PrefixTransfers(s, la, j + 1, w[1..]);
      assert s[j..][..|w|] == [s[j]] + s[j + 1..][..|w| - 1];
    }
  }

  /** What follows a point of the output, if it satisfies a lookahead, follows the same point of the input. */
  lemma LeadsTransfers(s: string, la: Lookahead, la': Lookahead, j: nat)
    requires j <= |s| && Leads(InsertFrom(s, la, j), la')
    ensures j < |s| && Leads(s[j..], la') && !Boundary(s, j, la)
  {
    var u := InsertFrom(s, la, j);
    match la'
    case Digit =>
      NoSeparatorAhead(s, la, j);
    case NoonOrMidnight =>
      if StartsWith(u, "Noon") {
        assert u[0] == 'N';
        PrefixTransfers(s, la, j, "Noon");
      } else {
        assert u[0] == 'M';
        PrefixTransfers(s, la, j, "Midnight");
      }
      NoSeparatorAhead(s, la, j);
  }

  /**
   * After the substitution, the pattern it applied matches nowhere, and a
   * pattern that matched nowhere before still matches nowhere: the
   * separator has no letters or digits to complete either pattern.
   */
  lemma {:induction false} InsertClears(s: string, la: Lookahead, la': Lookahead, i: nat)
    requires i <= |s| && (la' == la || NoBoundary(s, la'))
    ensures forall p :: 0 <= p <= |InsertFrom(s, la, i)| ==> !Boundary(InsertFrom(s, la, i), p, la')
    decreases |s| - i
  {
    if i < |s| {
      InsertClears(s, la, la', i + 1);
      forall p | 0 <= p <= |InsertFrom(s, la, i)| ensures !Boundary(InsertFrom(s, la, i), p, la') {
        InsertClearsAt(s, la, la', i, p);
      }
    }
  }

  /** One position of the output from `i`, given that the output from `i + 1` is clear. */
  lemma InsertClearsAt(s: string, la: Lookahead, la': Lookahead, i: nat, p: nat)
    requires i < |s| && (la' == la || NoBoundary(s, la'))
    requires NoBoundary(InsertFrom(s, la, i + 1), la')
    requires p <= |InsertFrom(s, la, i)|
    ensures !Boundary(InsertFrom(s, la, i), p, la')
  {
    var rest := InsertFrom(s, la, i + 1);
    var off := if Boundary(s, i, la) then 3 else 1;
    assert InsertFrom(s, la, i) == (if Boundary(s, i, la) then ", " else "") + [s[i]] + rest;
    if p >= off + 2 {
      BoundaryShifts(InsertFrom(s, la, i), rest, off, p, la');
    } else if p == off + 1 && Boundary(InsertFrom(s, la, i), p, la') {
      BoundaryAfterOne(s, la, la', i, off);
      assert false;
    }
  }

  /** A boundary past the first `off` characters is a boundary of the text after them. */
  lemma BoundaryShifts(u: string, rest: string, off: nat, p: nat, la: Lookahead)
    requires off + 2 <= p <= |u| && |u| == off + |rest| && u[off..] == rest
    ensures Boundary(u, p, la) == Boundary(rest, p - off, la)
  {
    assert u[p - 2] == rest[p - off - 2] && u[p - 1] == rest[p - off - 1];
    assert u[p..] == rest[p - off..];
  }

  /** A boundary right after the first output character of `s[i]` is one of `s` two places on, where `la` found none. */
  lemma BoundaryAfterOne(s: string, la: Lookahead, la': Lookahead, i: nat, off: nat)
    requires i < |s|
    requires off == (if Boundary(s, i, la) then 3 else 1)
    requires InsertFrom(s, la, i) == (if Boundary(s, i, la) then ", " else "") + [s[i]] + InsertFrom(s, la, i + 1)
    requires Boundary(InsertFrom(s, la, i), off + 1, la')
    ensures Boundary(s, i + 2, la') && !Boundary(s, i + 2, la)
  {
    var u, rest := InsertFrom(s, la, i), InsertFrom(s, la, i + 1);
    assert u[off - 1] == s[i] && u[off..] == rest;
    assert rest != [] && rest[0] == 'm' && u[off + 1..] == rest[1..] by {
      assert u[off] == 'm';
    }
    NoSeparatorAhead(s, la, i + 1);
    assert Leads(InsertFrom(s, la, i + 2), la') by {
      assert u[off + 1..] == InsertFrom(s, la, i + 2);
    }
    LeadsTransfers(s, la, la', i + 2);
  }

  /** The formatted text has no boundary of either kind left. */
  lemma FormatHoursClears(raw: string)
    ensures NoBoundary(FormatHours(raw), Digit) && NoBoundary(FormatHours(raw), NoonOrMidnight)
  {
    var t := Insert(raw, Digit);
    InsertClears(raw, Digit, Digit, 0);
    InsertClears(t, NoonOrMidnight, NoonOrMidnight, 0);
    InsertClears(t, NoonOrMidnight, Digit, 0);
  }

  /** Formatting twice is formatting once. */
  lemma FormatHoursIdempotent(raw: string)
    ensures FormatHours(FormatHours(raw)) == FormatHours(raw)
  {
    var f := FormatHours(raw);
    FormatHoursClears(raw);
    InsertNoBoundary(f, Digit, 0);
    InsertNoBoundary(f, NoonOrMidnight, 0);
  }

  /** Hours with no run-together times come out unchanged. */
  lemma FormatHoursUnchanged(raw: string)
    requires NoBoundary(raw, Digit) && NoBoundary(raw, NoonOrMidnight)
    ensures FormatHours(raw) == raw
  {
    InsertNoBoundary(raw, Digit, 0);
    InsertNoBoundary(raw, NoonOrMidnight, 0);
  }

  /** A text without `N` or `M` never sees a `Noon`/`Midnight` boundary. */
  lemma NoNoonOrMidnight(s: string)
    requires 'N' !in s && 'M' !in s
    ensures NoBoundary(s, NoonOrMidnight)
  {
    forall p | 0 <= p <= |s| ensures !Leads(s[p..], NoonOrMidnight) {
      if p < |s| {
        assert s[p..][0] == s[p] && s[p] in s;
      }
    }
  }

  /** The second time of "7 am9 am" gets the separator. */
  lemma ExampleSecondTime()
    ensures InsertFrom("7 am9 am", Digit, 4) == ", 9 am"
  {
    var s := "7 am9 am";
    assert InsertFrom(s, Digit, 8) == "";
    assert InsertFrom(s, Digit, 7) == "m";
    assert InsertFrom(s, Digit, 6) == "am";
    assert InsertFrom(s, Digit, 5) == " am";
    assert s[4..][0] == '9';
  }

  /** The digit substitution on "7 am9 am". */
  lemma ExampleDigitPass()
    ensures Insert("7 am9 am", Digit) == "7 am, 9 am"
  {
    var s := "7 am9 am";
    ExampleSecondTime();
    assert InsertFrom(s, Digit, 3) == "m, 9 am";
    assert InsertFrom(s, Digit, 2) == "am, 9 am";
    assert InsertFrom(s, Digit, 1) == " am, 9 am";
  }

  /** Two ranges written together get their separator. */
  lemma ExampleRunTogether()
    ensures FormatHours("7 am9 am") == "7 am, 9 am"
  {
    var t := "7 am, 9 am";
    ExampleDigitPass();
    assert forall i | 0 <= i < |t| :: t[i] != 'N' && t[i] != 'M';
    NoNoonOrMidnight(t);
    InsertNoBoundary(t, NoonOrMidnight, 0);
  }

  // ---------------------------------------------------------------------
  // The hours table
  // ---------------------------------------------------------------------

  /** One row of the campus-hours grid: its row header, if any, and the texts of its cells. */
  datatype HoursRow = HoursRow(rowheader: Option<string>, cells: seq<string>)

  /** The display name and formatted hours of a row with a header and a first cell. */
  function Reading(names: Dict<string>, row: HoursRow): Option<(string, string)> {
    if row.rowheader.Some? && row.cells != [] then
      Some((DisplayName(names, row.rowheader.value), FormatHours(row.cells[0])))
    else None
  }

  /** The readings of the rows that have both a header and a cell, in order. */
  function Readings(names: Dict<string>, rows: seq<HoursRow>): (r: seq<(string, string)>)
    ensures |r| <= |rows|
  {
    if rows == [] then []
    else
      var init := Readings(names, rows[..|rows| - 1]);
      match Reading(names, rows[|rows| - 1])
      case None => init
      case Some(e) => init + [e]
  }

  /** The grid rows after the header row. */
  function Body(rows: seq<HoursRow>): seq<HoursRow> {
    if rows == [] then [] else rows[1..]
  }

  /**
   * `get_dining_hours`: the dictionary from display name to formatted
   * hours, filled row by row; a later row with the same display name wins.
   */
  method GetDiningHours(names: Dict<string>, rows: seq<HoursRow>) returns (hours: Dict<string>)
    ensures hours == FromPairs(Readings(names, Body(rows)))
    ensures Valid(hours)
    ensures forall k :: Get(hours, k) == LastValue(Readings(names, Body(rows)), k)
  {
    hours := [];
    var body := Body(rows);
    var i := 0;
    while i < |body|
      invariant 0 <= i <= |body|
      invariant hours == FromPairs(Readings(names, body[..i]))
    {
      assert body[..i + 1][..i] == body[..i];
      var row := body[i];
      var reading := Reading(names, row);
      if reading.Some? {
        hours := Put(hours, reading.value.0, reading.value.1);
      }
      i := i + 1;
    }
    assert body[..i] == body;
    forall k {
      FromPairsGet(Readings(names, body), k);
    }
  }

  /** A text line per usable row, `name: hours`, as the timing check prints them. */
  method TimingLines(names: Dict<string>, rows: seq<HoursRow>) returns (lines: seq<string>)
    ensures |lines| == |Readings(names, Body(rows))|
    ensures forall j :: 0 <= j < |lines| ==>
      lines[j] == Readings(names, Body(rows))[j].0 + ": " + Readings(names, Body(rows))[j].1
  {
    lines := [];
    var body := Body(rows);
    var i := 0;
    while i < |body|
      invariant 0 <= i <= |body|
      invariant |lines| == |Readings(names, body[..i])|
      invariant forall j :: 0 <= j < |lines| ==>
        lines[j] == Readings(names, body[..i])[j].0 + ": " + Readings(names, body[..i])[j].1
    {
      assert body[..i + 1][..i] == body[..i];
      var row := body[i];
      var reading := Reading(names, row);
      if reading.Some? {
        lines := lines + [reading.value.0 + ": " + reading.value.1];
      }
      i := i + 1;
    }
    assert body[..i] == body;
  }
}
