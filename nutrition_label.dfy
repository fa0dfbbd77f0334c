/**
 * The nutrition-facts dialog parser of src/nutri_scrape.py
 * (`scrape_nutrition_modal`): the serving block scan, the two-column
 * nutrient rows of the primary and secondary tables, and the record that
 * collects them. Element lookups that can fail are `Option`s; the parser
 * never fails, every bad field degrades to an absent value.
 */
module NutritionLabel {
  import opened Wrappers
  import opened Text
  import opened Dicts

  // ---------------------------------------------------------------------
  // Numbers
  // ---------------------------------------------------------------------

  /** A decimal numeral: the digits before and after the point. */
  datatype Decimal = Decimal(whole: string, fraction: string)

  predicate WellFormed(d: Decimal) {
    AllDigits(d.whole) && AllDigits(d.fraction) && |d.whole| + |d.fraction| > 0
  }

  /** The numeral written out with its point. */
  function Show(d: Decimal): string {
    d.whole + "." + d.fraction
  }

  predicate IsNumeralChar(c: char) { IsDigit(c) || c == '.' }

  /**
   * The strings Python's `float()` accepts among those made of digits and
   * points: at least one digit and at most one point.
   */
  predicate DecimalSyntax(s: string) {
    && (forall i :: 0 <= i < |s| ==> IsNumeralChar(s[i]))
    && (forall i, j :: 0 <= i < j < |s| && s[i] == '.' ==> s[j] != '.')
    && (exists i :: 0 <= i < |s| && IsDigit(s[i]))
  }

  /** Python's `float(s)` restricted to unsigned decimal numerals; `None` where it raises. */
  function ParseDecimal(s: string): (r: Option<Decimal>)
    ensures r.Some? ==> WellFormed(r.value)
  {
    match IndexOf(s, ".", 0)
    case None =>
      if s != [] && AllDigits(s) then Some(Decimal(s, "")) else None
    case Some(i) =>
      var w, f := s[..i], s[i + 1..];
      if AllDigits(w) && AllDigits(f) && |w| + |f| > 0 then Some(Decimal(w, f)) else None
  }

  /** `float()` accepts a digits-and-points string exactly when it has a digit and at most one point. */
  lemma ParseDecimalAccepts(s: string)
    ensures ParseDecimal(s).Some? <==> DecimalSyntax(s)
  {
    match IndexOf(s, ".", 0)
    case None =>
      assert forall i :: 0 <= i < |s| ==> s[i] != '.' by {
        forall i | 0 <= i < |s| ensures s[i] != '.' {
          assert !OccursAt(s, i, ".");
          assert s[i..i + 1] == [s[i]];
        }
      }
      if DecimalSyntax(s) {
        var k :| 0 <= k < |s| && IsDigit(s[k]);
      }
    case Some(i) =>
      assert s[i] == '.' by { assert s[i..i + 1] == "."; }
      var w, f := s[..i], s[i + 1..];
      assert forall j :: 0 <= j < i ==> s[j] != '.' by {
        forall j | 0 <= j < i ensures s[j] != '.' {
          assert !OccursAt(s, j, ".");
          assert s[j..j + 1] == [s[j]];
        }
      }
      if ParseDecimal(s).Some? {
        if |w| > 0 { assert IsDigit(s[0]); } else { assert IsDigit(s[i + 1]); }
        forall a | 0 <= a < |s| ensures IsNumeralChar(s[a]) {
          if a < i { assert s[a] == w[a]; } else if a > i { assert s[a] == f[a - i - 1]; }
        }
        forall a, b | 0 <= a < b < |s| && s[a] == '.' ensures s[b] != '.' {
          assert a == i;
          assert s[b] == f[b - i - 1];
        }
      }
      if DecimalSyntax(s) {
        var k :| 0 <= k < |s| && IsDigit(s[k]);
        assert k < i ==> w[k] == s[k];
        assert k > i ==> f[k - i - 1] == s[k];
        assert AllDigits(w) by {
          forall a | 0 <= a < |w| ensures IsDigit(w[a]) { assert w[a] == s[a]; }
        }
        assert AllDigits(f) by {
          forall a | 0 <= a < |f| ensures IsDigit(f[a]) { assert f[a] == s[a + i + 1]; }
        }
      }
  }

  /** Reading a well-formed numeral written with its point gives the numeral back. */
  lemma ParseShow(d: Decimal)
    requires WellFormed(d)
    ensures ParseDecimal(Show(d)) == Some(d)
  {
    var s := Show(d);
    assert OccursAt(s, |d.whole|, ".");
    assert forall j :: 0 <= j < |d.whole| ==> !OccursAt(s, j, ".") by {
      forall j | 0 <= j < |d.whole| ensures !OccursAt(s, j, ".") {
        assert s[j] == d.whole[j];
        assert s[j..j + 1] == [s[j]];
      }
    }
    assert s[..|d.whole|] == d.whole;
    assert s[|d.whole| + 1..] == d.fraction;
  }

  /**
   * `d` is the numeral the text `s` spells: the text itself with its point
   * when it has one, or all whole part when it has none.
   */
  predicate Spells(d: Decimal, s: string) {
    if '.' in s then Show(d) == s else d == Decimal(s, "")
  }

  /** The value `float()` reads is the one the text spells: "25" gives 25, "2.5" gives 2.5. */
  lemma ParseDecimalValue(s: string)
    ensures ParseDecimal(s).Some? ==> Spells(ParseDecimal(s).value, s)
  {
    match IndexOf(s, ".", 0)
    case None =>
      if '.' in s {
        var i :| 0 <= i < |s| && s[i] == '.';
        assert s[i..i + 1] == ".";
      }
    case Some(i) =>
      assert s[i] == '.' by { assert s[i..i + 1] == "."; }
      assert s == s[..i] + "." + s[i + 1..];
  }

  /** Python's `int()` on a string of ASCII digits. */
  function DigitsValue(s: string): nat
    requires AllDigits(s)
  {
    if s == [] then 0 else 10 * DigitsValue(s[..|s| - 1]) + (s[|s| - 1] as int - '0' as int)
  }

  // ---------------------------------------------------------------------
  // Nutrient rows
  // ---------------------------------------------------------------------

  /** The amount of a nutrient: a number when `float()` accepts it, else the raw text. */
  datatype Amount = Number(value: Decimal) | Verbatim(text: string)

  datatype NutrientValue = NutrientValue(
    amount: Option<Amount>,
    unit: Option<string>,
    dailyValuePercent: Option<Decimal>)

  /** The value recorded for a row that does not have the name/amount shape. */
  const AllAbsent := NutrientValue(None, None, None)

  /** The end of the run of digits and points starting at `i`. */
  function NumeralEnd(s: string, i: nat): (r: nat)
    requires i <= |s|
    ensures i <= r <= |s| && (r == |s| || !IsNumeralChar(s[r]))
    ensures forall j :: i <= j < r ==> IsNumeralChar(s[j])
    decreases |s| - i
  {
    if i < |s| && IsNumeralChar(s[i]) then NumeralEnd(s, i + 1) else i
  }

  /** The amount token of the row pattern: `NA`, or digits and points followed by letters. */
  predicate AmountToken(tok: string) {
    tok == "NA" || (NumeralEnd(tok, 0) > 0 && AllLetters(tok[NumeralEnd(tok, 0)..]))
  }

  /**
   * `left = name + spaces + token` as the row pattern
   * `(.+?)\s+([\d.]+(?:\.\d+)?[a-zA-Z]*|NA)$` reads it: the name is not
   * empty and holds no newline, the spaces are not empty.
   */
  predicate SplitsAt(text: string, k: int, t: int) {
    && 1 <= k < t <= |text|
    && '\n' !in text[..k]
    && (forall j :: k <= j < t ==> IsSpace(text[j]))
    && AmountToken(text[t..])
  }

  /** The start of the whitespace-free suffix of `s[..j]`. */
  function WordStart(s: string, j: nat): (r: nat)
    requires j <= |s|
    ensures r <= j && (r == 0 || IsSpace(s[r - 1]))
    ensures forall i :: r <= i < j ==> !IsSpace(s[i])
  {
    if j > 0 && !IsSpace(s[j - 1]) then WordStart(s, j - 1) else j
  }

  datatype RowMatch = Matched(name: string, token: string) | NoMatch

  /**
   * `re.match` of the row pattern on a stripped left-hand text: the
   * leftmost-shortest name and the amount token, or no match.
   */
  function MatchRow(text: string): (r: RowMatch)
    requires Stripped(text)
    ensures r.Matched? ==>
      |r.name| + |r.token| <= |text| && r.name == text[..|r.name|] && r.token == text[|text| - |r.token|..]
  {
    var t := WordStart(text, |text|);
    var k := if t == 0 then 0 else SkipSpacesBack(text, 0, t - 1);
    if t > 0 && k > 0 && '\n' !in text[..k] && AmountToken(text[t..]) then
      Matched(text[..k], text[t..])
    else
      NoMatch
  }

  /**
   * The row pattern matches exactly when the text splits into name,
   * whitespace and token, and then its name is the shortest of all splits.
   */
  lemma MatchRowSpec(text: string)
    requires Stripped(text)
    ensures var r := MatchRow(text);
      && (r.Matched? ==>
            var k, t := |r.name|, |text| - |r.token|;
            SplitsAt(text, k, t) && forall k', t' :: SplitsAt(text, k', t') ==> k <= k')
      && (r.NoMatch? ==> forall k, t :: !SplitsAt(text, k, t))
  {
    var t := WordStart(text, |text|);
    var k := if t == 0 then 0 else SkipSpacesBack(text, 0, t - 1);
    if t > 0 && k > 0 && '\n' !in text[..k] && AmountToken(text[t..]) {
      MatchRowShortest(text, k, t);
    } else {
      MatchRowNone(text, k, t);
    }
  }

  /** Every split uses the last whitespace run: its token starts where `WordStart` says, its name ends no earlier. */
  lemma SplitIsLastRun(text: string, k': int, t': int)
    requires Stripped(text) && SplitsAt(text, k', t')
    ensures t' == WordStart(text, |text|)
    ensures k' >= SkipSpacesBack(text, 0, t' - 1)
  {
    var t := WordStart(text, |text|);
    var tok := text[t'..];
    assert forall i :: t' <= i < |text| ==> !IsSpace(text[i]) by {
      forall i | t' <= i < |text| ensures !IsSpace(text[i]) {
        assert text[i] == tok[i - t'];
        if tok == "NA" {
        } else {
          var e := NumeralEnd(tok, 0);
          if i - t' < e { assert IsNumeralChar(tok[i - t']); }
          else { assert tok[i - t'] == tok[e..][i - t' - e]; }
        }
      }
    }
    assert IsSpace(text[t' - 1]);
  }

  lemma MatchRowShortest(text: string, k: nat, t: nat)
    requires Stripped(text)
    requires t == WordStart(text, |text|) && t > 0 && k == SkipSpacesBack(text, 0, t - 1) && k > 0
    requires '\n' !in text[..k] && AmountToken(text[t..])
    ensures SplitsAt(text, k, t)
    ensures forall k', t' :: SplitsAt(text, k', t') ==> k <= k'
  {
    forall k', t' | SplitsAt(text, k', t') ensures k <= k' {
      SplitIsLastRun(text, k', t');
    }
  }

  lemma MatchRowNone(text: string, k: nat, t: nat)
    requires Stripped(text)
    requires t == WordStart(text, |text|) && k == (if t == 0 then 0 else SkipSpacesBack(text, 0, t - 1))
    requires !(t > 0 && k > 0 && '\n' !in text[..k] && AmountToken(text[t..]))
    ensures forall k', t' :: !SplitsAt(text, k', t')
  {
    forall k', t' | SplitsAt(text, k', t') ensures false {
      SplitIsLastRun(text, k', t');
    }
  }

  /** Amount and unit of a token: `NA` gives neither; else the numeral part and the trailing letters. */
  function ParseAmount(tok: string): (r: (Option<Amount>, Option<string>))
  {
    if tok == "NA" then (None, None)
    else
      var e := NumeralEnd(tok, 0);
      if e == 0 then (Some(Verbatim(tok)), None)
      else
        var numeral, rest := tok[..e], tok[e..];
        var amount := match ParseDecimal(numeral)
          case Some(d) => Number(d)
          case None => Verbatim(numeral);
        (Some(amount), if rest == [] then None else Some(rest))
  }

  /** Python's `s.replace('%', '')`. */
  function DropPercent(s: string): (r: string)
    ensures '%' !in r
    ensures forall c :: c in r ==> c in s
  {
    if s == [] then [] else (if s[0] == '%' then [] else [s[0]]) + DropPercent(s[1..])
  }

  /** Each piece of the text loses its `%` signs on its own; every other character stays. */
  lemma DropPercentKeeps(a: string, b: string, c: char)
    ensures DropPercent(a + b) == DropPercent(a) + DropPercent(b)
    ensures DropPercent([c]) == (if c == '%' then [] else [c])
  {
    DropPercentConcat(a, b);
  }

  lemma {:induction false} DropPercentConcat(a: string, b: string)
    ensures DropPercent(a + b) == DropPercent(a) + DropPercent(b)
    decreases |a|
  {
    if a == [] {
      assert a + b == b;
    } else {
      var head := if a[0] == '%' then [] else [a[0]];
      calc {
        DropPercent(a + b);
        { assert (a + b)[0] == a[0] && (a + b)[1..] == a[1..] + b; }
        head + DropPercent(a[1..] + b);
        { DropPercentConcat(a[1..], b); }
        head + (DropPercent(a[1..]) + DropPercent(b));
        (head + DropPercent(a[1..])) + DropPercent(b);
        DropPercent(a) + DropPercent(b);
      }
    }
  }

  /** The daily-value percent of a stripped right-hand text. */
  function ParseDailyValue(right: string): Option<Decimal>
  {
    if Trim(right) == [] || Trim(right) == "%" then None
    else
      var v := Trim(DropPercent(right));
      if v == [] then None else ParseDecimal(v)
  }

  /**
   * `NA` and only `NA` gives neither amount nor unit. Any other token has
   * an amount: the number its numeral spells exactly when `float()`
   * accepts the numeral, the numeral itself otherwise; its unit is the
   * trailing letters, if any.
   */
  lemma ParseAmountSpec(tok: string)
    requires AmountToken(tok)
    ensures tok == "NA" <==> ParseAmount(tok) == (None, None)
    ensures tok != "NA" ==>
      var e, p := NumeralEnd(tok, 0), ParseAmount(tok);
      && p.0.Some?
      && (p.0.value.Number? <==> DecimalSyntax(tok[..e]))
      && (p.0.value.Number? ==> Spells(p.0.value.value, tok[..e]))
      && (p.0.value.Verbatim? ==> p.0.value.text == tok[..e])
      && tok == tok[..e] + p.1.GetOr([])
      && (p.1.Some? ==> p.1.value != [] && AllLetters(p.1.value))
  {
    if tok != "NA" {
      var e := NumeralEnd(tok, 0);
      ParseDecimalAccepts(tok[..e]);
      assert tok == tok[..e] + tok[e..];
      ParseDecimalValue(tok[..e]);
    }
  }

  /**
   * The guards before `float()` exclude nothing it would accept: the
   * percent is present exactly when the text left once every `%` is
   * removed and the ends are stripped is a decimal numeral, and it is
   * the number that text spells.
   */
  lemma ParseDailyValueSpec(right: string)
    ensures ParseDailyValue(right).Some? <==> DecimalSyntax(Trim(DropPercent(right)))
    ensures ParseDailyValue(right).Some? ==> WellFormed(ParseDailyValue(right).value)
    ensures ParseDailyValue(right).Some? ==> Spells(ParseDailyValue(right).value, Trim(DropPercent(right)))
  {
    var v := Trim(DropPercent(right));
    ParseDecimalAccepts(v);
    ParseDecimalValue(v);
    if Trim(right) == [] || Trim(right) == "%" {
      var d := DropPercent(right);
      forall k | TrimStart(right) <= k < TrimEnd(right) ensures right[k] == '%' {
        assert right[k] == Trim(right)[k - TrimStart(right)];
      }
      forall i | 0 <= i < |d| ensures IsSpace(d[i]) {
        assert d[i] in d;
      }
      assert v == [];
    }
  }

  /** The dictionary key and value recorded for a row with stripped texts. */
  function RowEntry(left: string, right: string): (string, NutrientValue)
    requires Stripped(left)
  {
    match MatchRow(left)
    case Matched(name, tok) =>
      var (amount, unit) := ParseAmount(tok);
      (Trim(name), NutrientValue(amount, unit, ParseDailyValue(right)))
    case NoMatch => (left, AllAbsent)
  }

  /** Every key a row can produce is a piece of the row's stripped left-hand text. */
  lemma RowKeyIsInfix(left: string, right: string)
    requires Stripped(left)
    ensures exists a, b :: 0 <= a <= b <= |left| && RowEntry(left, right).0 == left[a..b]
  {
    match MatchRow(left)
    case Matched(name, tok) =>
      var k := |name|;
      assert name == left[..k];
      var a, b := TrimStart(name), TrimEnd(name);
      assert Trim(name) == left[a..b];
    case NoMatch =>
      assert left == left[0..|left|];
  }

  // ---------------------------------------------------------------------
  // The two nutrient tables
  // ---------------------------------------------------------------------

  /** One row of a label table; `Unreadable` when its left or right cell is missing. */
  datatype LabelRow = LabelRow(left: string, right: string) | Unreadable

  /** The key and value a readable row produces from its stripped cell texts. */
  function Entry(row: LabelRow): (string, NutrientValue)
    requires row.LabelRow?
  {
    RowEntry(Trim(row.left), Trim(row.right))
  }

  /**
   * The two tables of the dialog. The primary one drops the "Include NA"
   * rows; the secondary one drops every row whose key the primary table
   * already has.
   */
  datatype Table = Primary | Secondary(primary: Dict<NutrientValue>)

  /** Whether `row` is recorded in `table`. */
  predicate Records(table: Table, row: LabelRow) {
    && row.LabelRow?
    && match table
       case Primary => !Contains(Trim(row.left), "Include NA")
       case Secondary(primary) => Entry(row).0 !in Keys(primary)
  }

  /** The mapping a table's rows build, one assignment per recorded row, in order. */
  function Collected(table: Table, rows: seq<LabelRow>): Dict<NutrientValue>
  {
    if rows == [] then []
    else
      var d := Collected(table, rows[..|rows| - 1]);
      var row := rows[|rows| - 1];
      if Records(table, row) then Put(d, Entry(row).0, Entry(row).1) else d
  }

  /** One more row: the mapping gains that row's assignment when the table records it. */
  lemma CollectedStep(table: Table, rows: seq<LabelRow>, i: nat)
    requires i < |rows|
    ensures Collected(table, rows[..i + 1]) ==
      if Records(table, rows[i]) then Put(Collected(table, rows[..i]), Entry(rows[i]).0, Entry(rows[i]).1)
      else Collected(table, rows[..i])
  {
    assert rows[..i + 1][..i] == rows[..i];
  }

  /** The rows of the primary table (`nutrition_facts`), filled in a loop. */
  method BuildNutritionFacts(rows: seq<LabelRow>) returns (facts: Dict<NutrientValue>)
    ensures facts == Collected(Primary, rows)
  {
    facts := [];
    var i := 0;
    while i < |rows|
      invariant 0 <= i <= |rows|
      invariant facts == Collected(Primary, rows[..i])
    {
      CollectedStep(Primary, rows, i);
      var row := rows[i];
      if row.LabelRow? {
        var left, right := Trim(row.left), Trim(row.right);
        if !Contains(left, "Include NA") {
          var (key, value) := RowEntry(left, right);
          facts := Put(facts, key, value);
        }
      }
      i := i + 1;
    }
    assert rows[..i] == rows;
  }

  /** The rows of the secondary table (`secondary_nutrients`), filled in a loop. */
  method BuildSecondaryNutrients(primary: Dict<NutrientValue>, rows: seq<LabelRow>)
    returns (secondary: Dict<NutrientValue>)
    ensures secondary == Collected(Secondary(primary), rows)
  {
    secondary := [];
    var i := 0;
    while i < |rows|
      invariant 0 <= i <= |rows|
      invariant secondary == Collected(Secondary(primary), rows[..i])
    {
      CollectedStep(Secondary(primary), rows, i);
      var row := rows[i];
      if row.LabelRow? {
        var left, right := Trim(row.left), Trim(row.right);
        var (key, value) := RowEntry(left, right);
        if key !in Keys(primary) {
          secondary := Put(secondary, key, value);
        }
      }
      i := i + 1;
    }
    assert rows[..i] == rows;
  }

  /** A table never holds a key twice. */
  lemma {:induction false} CollectedValid(table: Table, rows: seq<LabelRow>)
    ensures Valid(Collected(table, rows))
  {
    if rows != [] {
      var row := rows[|rows| - 1];
      CollectedValid(table, rows[..|rows| - 1]);
      if Records(table, row) {
        PutGet(Collected(table, rows[..|rows| - 1]), Entry(row).0, Entry(row).1, Entry(row).0);
      }
    }
  }

  /** Some recorded row among `rows` produces the key `k`. */
  predicate Produces(table: Table, rows: seq<LabelRow>, k: string) {
    exists i :: 0 <= i < |rows| && Records(table, rows[i]) && Entry(rows[i]).0 == k
  }

  /** Every key of a table comes from a recorded row: the row that put it there. */
  lemma {:induction false} KeySource(table: Table, rows: seq<LabelRow>, k: string) returns (i: nat)
    requires k in Keys(Collected(table, rows))
    ensures i < |rows| && Records(table, rows[i]) && Entry(rows[i]).0 == k
  {
    var init, last := rows[..|rows| - 1], rows[|rows| - 1];
    if k in Keys(Collected(table, init)) {
      i := KeySource(table, init, k);
      assert rows[i] == init[i];
    } else {
      i := |rows| - 1;
    }
  }

  /** A recorded row's key is in the table. */
  lemma {:induction false} KeyKept(table: Table, rows: seq<LabelRow>, i: nat)
    requires i < |rows| && Records(table, rows[i])
    ensures Entry(rows[i]).0 in Keys(Collected(table, rows))
  {
    var init := rows[..|rows| - 1];
    if i < |init| {
      assert init[i] == rows[i];
      KeyKept(table, init, i);
    }
  }

  /** A key is in a table exactly when some recorded row produces it: no recorded row is dropped. */
  lemma CollectedKeys(table: Table, rows: seq<LabelRow>, k: string)
    ensures k in Keys(Collected(table, rows)) <==> Produces(table, rows, k)
  {
    if k in Keys(Collected(table, rows)) {
      var i := KeySource(table, rows, k);
    }
    if Produces(table, rows, k) {
      var i :| 0 <= i < |rows| && Records(table, rows[i]) && Entry(rows[i]).0 == k;
      KeyKept(table, rows, i);
    }
  }

  /** The value under a key is the one of the last recorded row producing that key. */
  lemma {:induction false} CollectedLastWins(table: Table, rows: seq<LabelRow>, i: nat)
    requires i < |rows| && Records(table, rows[i])
    requires forall j :: i < j < |rows| && Records(table, rows[j]) ==> Entry(rows[j]).0 != Entry(rows[i]).0
    ensures Get(Collected(table, rows), Entry(rows[i]).0) == Some(Entry(rows[i]).1)
  {
    var init := rows[..|rows| - 1];
    var last := rows[|rows| - 1];
    CollectedValid(table, init);
    if i == |rows| - 1 {
      PutGet(Collected(table, init), Entry(last).0, Entry(last).1, Entry(last).0);
    } else {
      assert init[i] == rows[i];
      forall j | i < j < |init| && Records(table, init[j]) ensures Entry(init[j]).0 != Entry(init[i]).0 {
        assert init[j] == rows[j];
      }
      CollectedLastWins(table, init, i);
      if Records(table, last) {
        PutGet(Collected(table, init), Entry(last).0, Entry(last).1, Entry(rows[i]).0);
      }
    }
  }

  /** No key of the secondary table is a key of the primary one. */
  lemma SecondaryDisjoint(primary: Dict<NutrientValue>, rows: seq<LabelRow>, k: string)
    requires k in Keys(Collected(Secondary(primary), rows))
    ensures k !in Keys(primary)
  {
    CollectedKeys(Secondary(primary), rows, k);
  }

  lemma ContainsInfix(s: string, a: int, b: int, w: string)
    requires 0 <= a <= b <= |s| && Contains(s[a..b], w)
    ensures Contains(s, w)
  {
    var i :| 0 <= i <= |s[a..b]| - |w| && OccursAt(s[a..b], i, w);
    forall j | 0 <= j < |w| ensures s[a + i + j] == w[j] {
      assert s[a..b][i..i + |w|][j] == w[j];
    }
    assert OccursAt(s, a + i, w);
  }

  /** An "Include NA" row never reaches the primary table, under any key. */
  lemma PrimaryHasNoIncludeNA(rows: seq<LabelRow>, k: string)
    requires k in Keys(Collected(Primary, rows))
    ensures !Contains(k, "Include NA")
  {
    CollectedKeys(Primary, rows, k);
    var i :| 0 <= i < |rows| && Records(Primary, rows[i]) && Entry(rows[i]).0 == k;
    var left := Trim(rows[i].left);
    RowKeyIsInfix(left, Trim(rows[i].right));
    var a, b :| 0 <= a <= b <= |left| && k == left[a..b];
    if Contains(k, "Include NA") {
      ContainsInfix(left, a, b, "Include NA");
    }
  }

  // ---------------------------------------------------------------------
  // The serving block
  // ---------------------------------------------------------------------

  const ServingsPhrase := "Servings per container"
  const SizeLabel := "Serving Size"

  /** The end of the run of digits starting at `i`. */
  function DigitsEnd(s: string, i: nat): (r: nat)
    requires i <= |s|
    ensures i <= r <= |s| && (r == |s| || !IsDigit(s[r]))
    ensures AllDigits(s[i..r])
    decreases |s| - i
  {
    if i < |s| && IsDigit(s[i]) then
      var r := DigitsEnd(s, i + 1);
      assert s[i..r] == [s[i]] + s[i + 1..r];
      r
    else i
  }

  /** `(\d+)\s*Servings per container` matches starting at `i`. */
  predicate CountMatchesAt(line: string, i: int) {
    0 <= i < |line| && IsDigit(line[i]) && OccursAt(line, SkipSpaces(line, DigitsEnd(line, i)), ServingsPhrase)
  }

  /** The first index at or after `from` where the count pattern matches. */
  function FirstCountMatch(line: string, from: nat): (r: Option<nat>)
    ensures r.Some? ==> from <= r.value && CountMatchesAt(line, r.value)
    ensures forall j :: from <= j && (r.None? || j < r.value) ==> !CountMatchesAt(line, j)
    decreases |line| - from
  {
    if from >= |line| then None
    else if CountMatchesAt(line, from) then Some(from)
    else FirstCountMatch(line, from + 1)
  }

  /** `re.search(r'(\d+)\s*Servings per container', line)`, read with `int()`. */
  function ServingsCount(line: string): Option<nat> {
    match FirstCountMatch(line, 0)
    case None => None
    case Some(i) => Some(DigitsValue(line[i..DigitsEnd(line, i)]))
  }

  /** The index of the first line that contains `w`. */
  function FirstContaining(lines: seq<string>, w: string): (r: Option<nat>)
    ensures r.Some? ==> r.value < |lines| && Contains(lines[r.value], w)
    ensures forall j :: 0 <= j < |lines| && (r.None? || j < r.value) ==> !Contains(lines[j], w)
  {
    if lines == [] then None
    else if Contains(lines[0], w) then Some(0)
    else match FirstContaining(lines[1..], w)
      case None => None
      case Some(i) => Some(i + 1)
  }

  /** Servings per container: read from the first line naming it, and from no other line. */
  function ServingsSpec(lines: seq<string>): Option<nat> {
    match FirstContaining(lines, ServingsPhrase)
    case None => None
    case Some(i) => ServingsCount(lines[i])
  }

  /**
   * The text after "Serving Size", stripped, when something follows its
   * first occurrence; `None` when the line ends with the label or lacks it.
   */
  function LabelRemainder(line: string): Option<string> {
    match IndexOf(line, SizeLabel, 0)
    case None => None
    case Some(p) => if p + |SizeLabel| < |line| then Some(Trim(line[p + |SizeLabel|..])) else None
  }

  const Units: seq<string> :=
    ["oz", "g", "ml", "cup", "piece", "slice", "tbsp", "tsp", "fl oz", "lb", "lbs", "portion"]

  /** A digit at the start of a word: where `\b\d+` can begin. */
  predicate NumberStartsAt(line: string, i: int) {
    0 <= i < |line| && IsDigit(line[i]) && (i == 0 || !IsWordChar(line[i - 1]))
  }

  /** Unit `u` occurs at `s`, in any letter case, and ends a word. */
  predicate UnitAt(line: string, s: int, u: string) {
    0 <= s && s + |u| <= |line| && Lower(line[s..s + |u|]) == u
    && (s + |u| == |line| || !IsWordChar(line[s + |u|]))
  }

  predicate SomeUnitAt(line: string, s: int) {
    exists n :: 0 <= n < |Units| && UnitAt(line, s, Units[n])
  }

  /**
   * `re.search(r'\b\d+.*(?:oz|g|...|portion)\b', line, re.IGNORECASE)`: a
   * number at a word start, then anywhere after its first digit a unit that
   * ends a word. There is no word boundary before the unit, so "1 Bag"
   * qualifies.
   */
  predicate UnitPattern(line: string) {
    exists i :: 0 <= i < |line| && NumberStartsAt(line, i) && exists s :: i < s < |line| && SomeUnitAt(line, s)
  }

  /** A line that may set the serving size without the label. */
  predicate UnitLine(line: string) {
    !Blank(line) && !Contains(line, ServingsPhrase) && !Contains(line, SizeLabel) && UnitPattern(line)
  }

  /** The last line whose label sets the serving size. */
  function LastLabeled(lines: seq<string>): (r: Option<nat>)
    ensures r.Some? ==> r.value < |lines| && LabelRemainder(lines[r.value]).Some?
    ensures forall j :: 0 <= j < |lines| && (r.None? || j > r.value) ==> LabelRemainder(lines[j]).None?
  {
    if lines == [] then None
    else if LabelRemainder(lines[|lines| - 1]).Some? then Some(|lines| - 1)
    else
      var init := lines[..|lines| - 1];
      assert forall j :: 0 <= j < |init| ==> init[j] == lines[j];
      LastLabeled(init)
  }

  /** The first unlabeled line that looks like a serving size. */
  function FirstUnitLine(lines: seq<string>): (r: Option<nat>)
    ensures r.Some? ==> r.value < |lines| && UnitLine(lines[r.value])
    ensures forall j :: 0 <= j < |lines| && (r.None? || j < r.value) ==> !UnitLine(lines[j])
  {
    if lines == [] then None
    else
      var init := lines[..|lines| - 1];
      assert forall j :: 0 <= j < |init| ==> init[j] == lines[j];
      match FirstUnitLine(init)
      case Some(i) => Some(i)
      case None => if UnitLine(lines[|lines| - 1]) then Some(|lines| - 1) else None
  }

  /** Serving size: the last labeled line wins; failing that, the first unit line. */
  function ServingSizeSpec(lines: seq<string>): Option<string> {
    match LastLabeled(lines)
    case Some(i) => LabelRemainder(lines[i])
    case None =>
      match FirstUnitLine(lines)
      case Some(j) => Some(Trim(lines[j]))
      case None => None
  }

  datatype ServingInfo = ServingInfo(servingsPerContainer: Option<nat>, servingSize: Option<string>)

  /** The first scan: the count read from the first line naming servings per container, then stop. */
  method ScanServings(lines: seq<string>) returns (servings: Option<nat>)
    ensures servings == ServingsSpec(lines)
  {
    servings := None;
    var i := 0;
    while i < |lines|
      invariant 0 <= i <= |lines|
      invariant forall j :: 0 <= j < i ==> !Contains(lines[j], ServingsPhrase)
    {
      if Contains(lines[i], ServingsPhrase) {
        servings := ServingsCount(lines[i]);
        return;
      }
      i := i + 1;
    }
  }

  /** The second scan: every line is looked at; a labeled line overrides, a unit line only fills a gap. */
  method ScanServingSize(lines: seq<string>) returns (size: Option<string>)
    ensures size == ServingSizeSpec(lines)
  {
    size := None;
    var i := 0;
    while i < |lines|
      invariant 0 <= i <= |lines|
      invariant size == ServingSizeSpec(lines[..i])
    {
      var line := lines[i];
      ContainsIffIndexOf(line, SizeLabel);
      ServingSizeStepAt(lines, i);
      if Contains(line, SizeLabel) {
        var rest := LabelRemainder(line);
        if rest.Some? {
          size := rest;
        }
      } else if !Blank(line) && !Contains(line, ServingsPhrase) && !Contains(line, SizeLabel) {
        if UnitPattern(line) && size.None? {
          size := Some(Trim(line));
        }
      }
      i := i + 1;
    }
    assert lines[..i] == lines;
  }

  /** The two line scans over the serving block. */
  method ParseServingInfo(servingText: string) returns (info: ServingInfo)
    ensures var lines := SplitLines(Trim(servingText));
      info == ServingInfo(ServingsSpec(lines), ServingSizeSpec(lines))
  {
    var lines := SplitLines(Trim(servingText));
    var servings := ScanServings(lines);
    var size := ScanServingSize(lines);
    info := ServingInfo(servings, size);
  }

  /** How the serving-size reading changes when one more line is scanned. */
  lemma ServingSizeStep(lines: seq<string>)
    requires lines != []
    ensures var init, line := lines[..|lines| - 1], lines[|lines| - 1];
      ServingSizeSpec(lines) ==
        if LabelRemainder(line).Some? then LabelRemainder(line)
        else if UnitLine(line) && ServingSizeSpec(init).None? then Some(Trim(line))
        else ServingSizeSpec(init)
  {
    var init, line := lines[..|lines| - 1], lines[|lines| - 1];
    if LabelRemainder(line).None? {
      assert LastLabeled(lines) == LastLabeled(init);
      match LastLabeled(init)
      case Some(i) =>
        assert init[i] == lines[i];
      case None =>
        match FirstUnitLine(init)
        case Some(j) =>
          assert FirstUnitLine(lines) == Some(j);
          assert init[j] == lines[j];
        case None =>
      }
  }

  /** The same step, stated for the scan of `lines` reaching line `i`. */
  lemma ServingSizeStepAt(lines: seq<string>, i: nat)
    requires i < |lines|
    ensures ServingSizeSpec(lines[..i + 1]) ==
      if LabelRemainder(lines[i]).Some? then LabelRemainder(lines[i])
      else if UnitLine(lines[i]) && ServingSizeSpec(lines[..i]).None? then Some(Trim(lines[i]))
      else ServingSizeSpec(lines[..i])
  {
    assert lines[..i + 1][..i] == lines[..i];
    ServingSizeStep(lines[..i + 1]);
  }

  // ---------------------------------------------------------------------
  // The dialog and its record
  // ---------------------------------------------------------------------

  /**
   * What the nutrition dialog shows, element by element; `None` where the
   * element is missing. A missing secondary table reads as no rows.
   */
  datatype NutritionDialog = NutritionDialog(
    labelHeader: Option<string>,
    servingBlock: Option<string>,
    calories: Option<string>,
    primaryRows: seq<LabelRow>,
    secondaryRows: seq<LabelRow>,
    ingredients: Option<string>,
    allergens: Option<string>)

  /** The record `scrape_nutrition_modal` returns for one menu item. */
  datatype NutritionRecord = NutritionRecord(
    itemName: Option<string>,
    servingInfo: Option<ServingInfo>,
    calories: Option<string>,
    nutritionFacts: Dict<NutrientValue>,
    secondaryNutrients: Dict<NutrientValue>,
    ingredients: Option<string>,
    allergens: Option<string>)

  /** The stripped text of an element that may be missing. */
  function TextOf(elem: Option<string>): (r: Option<string>)
    ensures r.None? <==> elem.None?
    ensures r.Some? ==> Stripped(r.value) && r.value == Trim(elem.value)
  {
    match elem
    case None => None
    case Some(t) => Some(Trim(t))
  }

  /**
   * Reads the dialog into a record; `None` when there is no dialog. The
   * two tables are filled row by row, hold no key twice and share no key.
   */
  method ScrapeNutritionModal(dialog: Option<NutritionDialog>) returns (r: Option<NutritionRecord>)
    ensures r.None? <==> dialog.None?
    ensures r.Some? ==>
      var d, rec := dialog.value, r.value;
      && rec.itemName == TextOf(d.labelHeader)
      && rec.calories == TextOf(d.calories)
      && rec.ingredients == TextOf(d.ingredients)
      && rec.allergens == TextOf(d.allergens)
      && (d.servingBlock.None? ==> rec.servingInfo.None?)
      && (d.servingBlock.Some? ==>
            var lines := SplitLines(Trim(d.servingBlock.value));
            rec.servingInfo == Some(ServingInfo(ServingsSpec(lines), ServingSizeSpec(lines))))
      && rec.nutritionFacts == Collected(Primary, d.primaryRows)
      && rec.secondaryNutrients == Collected(Secondary(rec.nutritionFacts), d.secondaryRows)
    ensures r.Some? ==>
      && Valid(r.value.nutritionFacts) && Valid(r.value.secondaryNutrients)
      && forall k :: k in Keys(r.value.secondaryNutrients) ==> k !in Keys(r.value.nutritionFacts)
  {
    if dialog.None? {
      return None;
    }
    var d := dialog.value;
    var serving: Option<ServingInfo> := None;
    if d.servingBlock.Some? {
      var info := ParseServingInfo(d.servingBlock.value);
      serving := Some(info);
    }
    var facts := BuildNutritionFacts(d.primaryRows);
    var secondary := BuildSecondaryNutrients(facts, d.secondaryRows);
    CollectedValid(Primary, d.primaryRows);
    CollectedValid(Secondary(facts), d.secondaryRows);
    forall k | k in Keys(secondary) ensures k !in Keys(facts) {
      SecondaryDisjoint(facts, d.secondaryRows, k);
    }
    r := Some(NutritionRecord(
      TextOf(d.labelHeader), serving, TextOf(d.calories), facts, secondary,
      TextOf(d.ingredients), TextOf(d.allergens)));
  }

  // ---------------------------------------------------------------------
  // Worked rows
  // ---------------------------------------------------------------------

  lemma ExampleTotalFatMatch()
    ensures MatchRow("Total Fat 25g") == Matched("Total Fat", "25g")
  {
    var text := "Total Fat 25g";
    assert WordStart(text, 10) == 10;
    assert WordStart(text, 13) == 10;
    assert SkipSpacesBack(text, 0, 9) == 9;
    assert text[10..] == "25g";
    assert NumeralEnd("25g", 2) == 2;
    assert text[..9] == "Total Fat";
  }

  lemma ExampleTotalFatAmount()
    ensures ParseAmount("25g") == (Some(Number(Decimal("25", ""))), Some("g"))
  {
    assert NumeralEnd("25g", 2) == 2;
    assert "25g"[..2] == "25";
    IndexOfAbsentChar("25", '.');
  }

  lemma ExamplePercent()
    ensures ParseDailyValue("32%") == Some(Decimal("32", ""))
  {
    TrimStripped("32%");
    assert DropPercent("32%") == "32";
    TrimStripped("32");
    IndexOfAbsentChar("32", '.');
  }

  /** "Total Fat 25g" with "32%": name, number, unit and percent. */
  lemma ExampleTotalFat()
    ensures Entry(LabelRow("Total Fat 25g", "32%"))
      == ("Total Fat", NutrientValue(Some(Number(Decimal("25", ""))), Some("g"), Some(Decimal("32", ""))))
  {
    TrimStripped("Total Fat 25g");
    TrimStripped("32%");
    ExampleTotalFatMatch();
    ExampleTotalFatAmount();
    ExamplePercent();
    TrimStripped("Total Fat");
  }

  lemma ExampleTransFatMatch()
    ensures MatchRow("Trans Fat NA") == Matched("Trans Fat", "NA")
  {
    var text := "Trans Fat NA";
    assert WordStart(text, 10) == 10;
    assert WordStart(text, 12) == 10;
    assert SkipSpacesBack(text, 0, 9) == 9;
    assert text[10..] == "NA";
    assert text[..9] == "Trans Fat";
  }

  /** "Trans Fat NA": the amount and unit are both absent. */
  lemma ExampleTransFat()
    ensures Entry(LabelRow("Trans Fat NA", "")) == ("Trans Fat", NutrientValue(None, None, None))
  {
    TrimStripped("Trans Fat NA");
    ExampleTransFatMatch();
    TrimStripped("Trans Fat");
    assert Trim("") == "";
  }

  /** A row whose left text is a single word falls back to the text itself with nothing known. */
  lemma ExampleSingleWord()
    ensures Entry(LabelRow("Calories", "%")) == ("Calories", AllAbsent)
  {
    TrimStripped("Calories");
    assert WordStart("Calories", |"Calories"|) == 0;
    assert MatchRow("Calories") == NoMatch;
    assert RowEntry("Calories", Trim("%")) == ("Calories", AllAbsent);
  }

  /** The label glued to its value still yields the value. */
  lemma ExampleGluedLabel()
    ensures LabelRemainder("Serving Size1 lb Portion (453g)") == Some("1 lb Portion (453g)")
  {
    var line := "Serving Size1 lb Portion (453g)";
    assert OccursAt(line, 0, SizeLabel);
    assert line[|SizeLabel|..] == "1 lb Portion (453g)";
    TrimStripped("1 lb Portion (453g)");
  }

  /** The unit may end a longer word: "1 Bag" looks like a serving size ("g"). */
  lemma ExampleBag()
    ensures UnitPattern("1 Bag")
  {
    var line := "1 Bag";
    assert NumberStartsAt(line, 0);
    assert line[4..5] == "g";
    assert Lower("g") == "g";
    assert UnitAt(line, 4, Units[1]);
    assert SomeUnitAt(line, 4);
    assert 0 < 4 < |line|;
  }
}
