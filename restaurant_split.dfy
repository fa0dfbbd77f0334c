/**
 * src/nutri_split.py: the per-restaurant split of the menus file, with the
 * file name each restaurant gets, the item counts, the index keyed by
 * restaurant name, and the summary statistics computed from that index.
 */
module RestaurantSplit {
  import opened Wrappers
  import opened Text
  import opened Dicts
  import opened StableSort
  import DiningHours

  // ---------------------------------------------------------------------
  // File names
  // ---------------------------------------------------------------------

  /** Kept by the first step of the file-name pipeline: `\w`, `\s` or `-`. */
  predicate Kept(c: char) { IsWordChar(c) || IsSpace(c) || c == '-' }

  /** A separator for the second step: `[\s-]`. */
  predicate Separator(c: char) { IsSpace(c) || c == '-' }

  /** `re.sub(r'[^\w\s-]', '', name)`. */
  function DropSpecial(s: string): (r: string)
    ensures forall i :: 0 <= i < |r| ==> Kept(r[i])
    ensures (forall i :: 0 <= i < |s| ==> Kept(s[i])) ==> r == s
  {
    if s == [] then []
    else (if Kept(s[0]) then [s[0]] else []) + DropSpecial(s[1..])
  }

  /**
   * The substitution works character by character: each piece of the text
   * is filtered on its own, a kept character stays and any other goes.
   */
  lemma DropSpecialKeeps(a: string, b: string, c: char)
    ensures DropSpecial(a + b) == DropSpecial(a) + DropSpecial(b)
    ensures DropSpecial([c]) == (if Kept(c) then [c] else [])
  {
    DropSpecialConcat(a, b);
  }

  lemma {:induction false} DropSpecialConcat(a: string, b: string)
    ensures DropSpecial(a + b) == DropSpecial(a) + DropSpecial(b)
    decreases |a|
  {
    if a == [] {
      assert a + b == b;
    } else {
      var head := if Kept(a[0]) then [a[0]] else [];
      calc {
        DropSpecial(a + b);
        { assert (a + b)[0] == a[0] && (a + b)[1..] == a[1..] + b; }
        head + DropSpecial(a[1..] + b);
        { DropSpecialConcat(a[1..], b); }
        head + (DropSpecial(a[1..]) + DropSpecial(b));
        (head + DropSpecial(a[1..])) + DropSpecial(b);
        DropSpecial(a) + DropSpecial(b);
      }
    }
  }

  /** The index just past the run of separators starting at `i`. */
  function SeparatorRunEnd(s: string, i: nat): (r: nat)
    requires i <= |s|
    ensures i <= r <= |s| && (r == |s| || !Separator(s[r]))
    decreases |s| - i
  {
    if i < |s| && Separator(s[i]) then SeparatorRunEnd(s, i + 1) else i
  }

  /** `re.sub(r'[\s-]+', '_', s)` applied to `s[i..]`: every separator run becomes one `_`. */
  function CollapseFrom(s: string, i: nat): (r: string)
    requires i <= |s|
    ensures forall k :: 0 <= k < |r| ==> !Separator(r[k])
    ensures forall k :: 0 <= k < |r| ==> r[k] == '_' || r[k] in s[i..]
    ensures (forall k :: i <= k < |s| ==> !Separator(s[k])) ==> r == s[i..]
    decreases |s| - i
  {
    if i == |s| then []
    else if Separator(s[i]) then
      var e := SeparatorRunEnd(s, i);
      var rest := CollapseFrom(s, e);
      assert forall c :: c in s[e..] ==> c in s[i..] by {
        forall k | e <= k < |s| ensures s[k] in s[i..] { assert s[k] == s[i..][k - i]; }
      }
      "_" + rest
    else
      var rest := CollapseFrom(s, i + 1);
      assert s[i..] == [s[i]] + s[i + 1..];
      [s[i]] + rest
  }

  /**
   * What the substitution writes: a whole run of separators, up to a
   * character that is not one, becomes a single `_` before the rest's
   * result, and a character that is not a separator stays, in place.
   */
  lemma CollapseSpec(run: string, c: char, rest: string)
    ensures run != [] && (forall k :: 0 <= k < |run| ==> Separator(run[k])) && (rest == [] || !Separator(rest[0])) ==>
      CollapseFrom(run + rest, 0) == "_" + CollapseFrom(rest, 0)
    ensures !Separator(c) ==> CollapseFrom([c] + rest, 0) == [c] + CollapseFrom(rest, 0)
  {
    var s := run + rest;
    if run != [] && (forall k :: 0 <= k < |run| ==> Separator(run[k])) && (rest == [] || !Separator(rest[0])) {
      assert forall k :: 0 <= k < |run| ==> Separator(s[k]) by {
        forall k | 0 <= k < |run| ensures Separator(s[k]) { assert s[k] == run[k]; }
      }
      assert |run| < |s| ==> s[|run|] == rest[0];
      RunEndAt(s, 0, |run|);
      assert s[|run|..] == rest;
      CollapseSame(s, |run|, rest, 0);
    }
    if !Separator(c) {
      assert ([c] + rest)[1..] == rest;
      CollapseSame([c] + rest, 1, rest, 0);
    }
  }

  /** A run of separators from `i` to `e`, ended by a non-separator or the end, ends at `e`. */
  lemma {:induction false} RunEndAt(s: string, i: nat, e: nat)
    requires i <= e <= |s| && (forall k :: i <= k < e ==> Separator(s[k])) && (e == |s| || !Separator(s[e]))
    ensures SeparatorRunEnd(s, i) == e
    decreases e - i
  {
    if i < e {
      RunEndAt(s, i + 1, e);
    }
  }

  /** The run ends at the same distance in two texts with the same suffix. */
  lemma {:induction false} RunEndSame(s: string, i: nat, t: string, j: nat)
    requires i <= |s| && j <= |t| && s[i..] == t[j..]
    ensures SeparatorRunEnd(s, i) - i == SeparatorRunEnd(t, j) - j
    decreases |s| - i
  {
    if i < |s| {
      assert s[i] == s[i..][0] == t[j];
      assert s[i + 1..] == s[i..][1..] == t[j..][1..] == t[j + 1..];
      RunEndSame(s, i + 1, t, j + 1);
    }
  }

  /** The collapse of a suffix depends only on the suffix. */
  lemma {:induction false} CollapseSame(s: string, i: nat, t: string, j: nat)
    requires i <= |s| && j <= |t| && s[i..] == t[j..]
    ensures CollapseFrom(s, i) == CollapseFrom(t, j)
    decreases |s| - i
  {
    if i < |s| {
      assert s[i] == s[i..][0] == t[j];
      if Separator(s[i]) {
        var e, f := SeparatorRunEnd(s, i), SeparatorRunEnd(t, j);
        RunEndSame(s, i, t, j);
        assert s[e..] == s[i..][e - i..] == t[j..][f - j..] == t[f..];
        CollapseSame(s, e, t, f);
      } else {
        assert s[i + 1..] == s[i..][1..] == t[j..][1..] == t[j + 1..];
        CollapseSame(s, i + 1, t, j + 1);
      }
    }
  }

  /** `sanitize_filename`: the three steps, then `strip('_')` and `lower()`. */
  function SanitizeFilename(name: string): string {
    Lower(StripChar(CollapseFrom(DropSpecial(name), 0), '_'))
  }

  /** The characters a sanitized name is made of. */
  predicate SafeChar(c: char) { ('a' <= c <= 'z') || IsDigit(c) || c == '_' }

  /** A sanitized name: lower-case letters, digits and `_`, with no `_` at either end. */
  predicate SafeName(s: string) {
    (forall i :: 0 <= i < |s| ==> SafeChar(s[i])) && (s == [] || (s[0] != '_' && s[|s| - 1] != '_'))
  }

  /** Every sanitized name is safe, and sanitizing a safe name changes nothing. */
  lemma SanitizeFilenameSafe(name: string)
    ensures SafeName(SanitizeFilename(name))
    ensures SanitizeFilename(SanitizeFilename(name)) == SanitizeFilename(name)
  {
    var a := DropSpecial(name);
    var b := CollapseFrom(a, 0);
    var c := StripChar(b, '_');
    var r := Lower(c);
    forall i | 0 <= i < |c| ensures Kept(c[i]) && !Separator(c[i]) {
      assert c[i] in c;
      assert c[i] in b;
      if c[i] != '_' {
        var k :| 0 <= k < |a| && a[k] == c[i];
      }
    }
    forall i | 0 <= i < |r| ensures SafeChar(r[i]) {
      assert IsWordChar(c[i]);
    }
    SafeIsFixed(r);
  }

  /** A safe name goes through every step unchanged. */
  lemma SafeIsFixed(s: string)
    requires SafeName(s)
    ensures SanitizeFilename(s) == s
  {
    assert forall i :: 0 <= i < |s| ==> Kept(s[i]) && !Separator(s[i]);
    assert DropSpecial(s) == s;
    assert CollapseFrom(s, 0) == s[0..] == s;
    assert StripChar(s, '_') == s;
    assert Lower(s) == s;
  }

  // ---------------------------------------------------------------------
  // The split
  // ---------------------------------------------------------------------

  /** A meal as the menus file holds it; only its halal flag is read here. */
  datatype MealIn = MealIn(name: Option<string>, isHalal: Option<bool>)

  /** A category as the menus file holds it; `None` where the key is missing. */
  datatype CategoryIn = CategoryIn(name: Option<string>, meals: Option<seq<MealIn>>)

  /** A restaurant as the menus file holds it; `None` where the key is missing. */
  datatype RestaurantIn = RestaurantIn(
    name: Option<string>,
    hours: Option<string>,
    categories: Option<seq<CategoryIn>>)

  const UnknownName := "Unknown"

  /** `meal.get("is_halal", False)`. */
  predicate Halal(m: MealIn) { m.isHalal == Some(true) }

  function MealsOf(c: CategoryIn): seq<MealIn> { c.meals.GetOr([]) }

  /** The number of meals with the halal flag set. */
  function CountHalal(meals: seq<MealIn>): (r: nat)
    ensures r <= |meals|
  {
    if meals == [] then 0 else CountHalal(meals[..|meals| - 1]) + (if Halal(meals[|meals| - 1]) then 1 else 0)
  }

  /** `total_items`: the meals of all categories together. */
  function TotalItems(cats: seq<CategoryIn>): nat {
    if cats == [] then 0 else TotalItems(cats[..|cats| - 1]) + |MealsOf(cats[|cats| - 1])|
  }

  /** `halal_items`: the halal meals of all categories together. */
  function HalalItems(cats: seq<CategoryIn>): nat {
    if cats == [] then 0 else HalalItems(cats[..|cats| - 1]) + CountHalal(MealsOf(cats[|cats| - 1]))
  }

  /** There are never more halal items than items. */
  lemma {:induction false} HalalAtMostTotal(cats: seq<CategoryIn>)
    ensures HalalItems(cats) <= TotalItems(cats)
  {
    if cats != [] {
      HalalAtMostTotal(cats[..|cats| - 1]);
    }
  }

  /** The per-restaurant file's content. */
  datatype RestaurantFile = RestaurantFile(
    name: string,
    hours: string,
    categories: seq<CategoryIn>,
    totalItems: nat,
    halalItems: nat)

  /** The index entry of a restaurant. */
  datatype IndexEntry = IndexEntry(
    filename: string,
    safeName: string,
    hours: string,
    totalItems: nat,
    halalItems: nat,
    categoriesCount: nat)

  function NameOf(r: RestaurantIn): string { r.name.GetOr(UnknownName) }

  function FileOf(r: RestaurantIn): (f: RestaurantFile)
    ensures f.halalItems <= f.totalItems
  {
    var cats := r.categories.GetOr([]);
    HalalAtMostTotal(cats);
    RestaurantFile(NameOf(r), r.hours.GetOr(DiningHours.NoHours), cats, TotalItems(cats), HalalItems(cats))
  }

  function EntryOf(r: RestaurantIn): (e: IndexEntry)
    ensures e.halalItems <= e.totalItems && SafeName(e.safeName)
  {
    var safe := SanitizeFilename(NameOf(r));
    var f := FileOf(r);
    SanitizeFilenameSafe(NameOf(r));
    IndexEntry(safe + ".json", safe, f.hours, f.totalItems, f.halalItems, |r.categories.GetOr([])|)
  }

  /** The index assignments, one per restaurant, in file order. */
  function IndexPairs(rs: seq<RestaurantIn>): seq<(string, IndexEntry)> {
    seq(|rs|, i requires 0 <= i < |rs| => (NameOf(rs[i]), EntryOf(rs[i])))
  }

  /** The file writes, one per restaurant in file order: a later file of the same name overwrites an earlier one. */
  function Writes(rs: seq<RestaurantIn>): seq<(string, RestaurantFile)> {
    seq(|rs|, i requires 0 <= i < |rs| => (EntryOf(rs[i]).filename, FileOf(rs[i])))
  }

  datatype SplitIndex = SplitIndex(totalRestaurants: nat, restaurants: Dict<IndexEntry>)

  /** The body of the restaurant loop: the file name, the file's content and the index entry. */
  method ReadRestaurant(r: RestaurantIn) returns (filename: string, data: RestaurantFile, entry: IndexEntry)
    ensures data == FileOf(r) && entry == EntryOf(r) && filename == entry.filename
    ensures data.name == NameOf(r)
  {
    var name := NameOf(r);
    var safe := SanitizeFilename(name);
    filename := safe + ".json";
    var cats := r.categories.GetOr([]);
    data := RestaurantFile(name, r.hours.GetOr(DiningHours.NoHours), cats, TotalItems(cats), HalalItems(cats));
    entry := IndexEntry(filename, safe, data.hours, data.totalItems, data.halalItems, |cats|);
  }

  /**
   * `split_restaurants`: writes one file per restaurant (returned here as
   * the list of writes, file name and content) and fills the index keyed
   * by restaurant name, a later restaurant of the same name replacing the
   * entry of an earlier one.
   */
  method SplitRestaurants(rs: seq<RestaurantIn>) returns (files: seq<(string, RestaurantFile)>, index: SplitIndex)
    ensures |files| == |rs|
    ensures files == Writes(rs)
    ensures index.totalRestaurants == |rs|
    ensures index.restaurants == FromPairs(IndexPairs(rs))
  {
    var entries: Dict<IndexEntry> := [];
    files := [];
    var i := 0;
    while i < |rs|
      invariant 0 <= i <= |rs|
      invariant files == Writes(rs)[..i]
      invariant entries == FromPairs(IndexPairs(rs)[..i])
    {
      var filename, data, entry := ReadRestaurant(rs[i]);
      PrefixStep(Writes(rs), i);
      PrefixStep(IndexPairs(rs), i);
      files := files + [(filename, data)];
      entries := Put(entries, data.name, entry);
      i := i + 1;
    }
    assert Writes(rs)[..i] == Writes(rs);
    assert IndexPairs(rs)[..i] == IndexPairs(rs);
    index := SplitIndex(|rs|, entries);
  }

  /** A prefix one longer is the prefix and the next element. */
  lemma PrefixStep<T>(s: seq<T>, i: nat)
    requires i < |s|
    ensures s[..i + 1] == s[..i] + [s[i]]
  {
  }

  /**
   * The index holds one entry per distinct name, so never more than the
   * restaurants read; each name's entry is the one of its last restaurant.
   */
  lemma IndexShape(rs: seq<RestaurantIn>, name: string)
    ensures Valid(FromPairs(IndexPairs(rs)))
    ensures |FromPairs(IndexPairs(rs))| <= |rs|
    ensures name in Keys(FromPairs(IndexPairs(rs))) <==> exists i :: 0 <= i < |rs| && NameOf(rs[i]) == name
    ensures Get(FromPairs(IndexPairs(rs)), name) == LastValue(IndexPairs(rs), name)
  {
    var ps := IndexPairs(rs);
    FromPairsGet(ps, name);
    FromPairsKeys(ps, name);
    FromPairsSize(ps);
    if exists i :: 0 <= i < |rs| && NameOf(rs[i]) == name {
      var i :| 0 <= i < |rs| && NameOf(rs[i]) == name;
      assert ps[i].0 == name;
    }
  }

  // ---------------------------------------------------------------------
  // Summary statistics
  // ---------------------------------------------------------------------

  /** A quotient left unevaluated: the average before rounding. */
  datatype Ratio = Ratio(numerator: nat, denominator: nat)

  datatype Summary = Summary(
    totalRestaurants: nat,
    totalItems: nat,
    totalHalalItems: nat,
    averageItemsPerRestaurant: Ratio,
    restaurantsWithHalal: nat)

  datatype Stats = Stats(
    summary: Summary,
    topRestaurantsByItems: seq<(string, nat)>,
    topRestaurantsByHalal: seq<(string, nat)>,
    restaurantsByCategoryCount: seq<(string, nat)>)

  /** Which count of an index entry a statistic reads. */
  datatype Count = Items | HalalCount | Categories

  function CountOf(e: IndexEntry, c: Count): nat {
    match c
    case Items => e.totalItems
    case HalalCount => e.halalItems
    case Categories => e.categoriesCount
  }

  /** The sum of one count over the index. */
  function SumOf(index: Dict<IndexEntry>, c: Count): nat {
    if index == [] then 0 else SumOf(index[..|index| - 1], c) + CountOf(index[|index| - 1].1, c)
  }

  /** The number of entries with at least one halal item. */
  function WithHalal(index: Dict<IndexEntry>): (r: nat)
    ensures r <= |index|
  {
    if index == [] then 0 else WithHalal(index[..|index| - 1]) + (if index[|index| - 1].1.halalItems > 0 then 1 else 0)
  }

  /** `(name, count)` for every entry, in index order. */
  function Ranked(index: Dict<IndexEntry>, c: Count): (r: seq<(string, nat)>)
    ensures |r| == |index|
    ensures forall i :: 0 <= i < |index| ==> r[i] == (index[i].0, CountOf(index[i].1, c))
  {
    if index == [] then [] else Ranked(index[..|index| - 1], c) + [(index[|index| - 1].0, CountOf(index[|index| - 1].1, c))]
  }

  /** The sort key of `sorted(..., key=lambda x: x[1], reverse=True)`: the count, negated. */
  function Descending(p: (string, nat)): int { -(p.1 as int) }

  /** The ten largest counts, ties in index order. */
  function TopTen(pairs: seq<(string, nat)>): (r: seq<(string, nat)>)
    ensures |r| == if |pairs| <= 10 then |pairs| else 10
    ensures r == SortByKey(pairs, Descending)[..|r|]
  {
    var sorted := SortByKey(pairs, Descending);
    if |sorted| <= 10 then sorted else sorted[..10]
  }

  /**
   * `create_summary_stats`: the totals, the number of restaurants with
   * halal items, and the three top-ten lists; dividing by the number of
   * restaurants fails when the index is empty.
   */
  function SummaryStats(index: Dict<IndexEntry>): (r: Result<Stats>)
    ensures r.Failure? <==> index == []
    ensures r.Success? ==> r.value.summary.restaurantsWithHalal <= r.value.summary.totalRestaurants
  {
    if index == [] then Failure("division by zero")
    else
      var items := SumOf(index, Items);
      Success(Stats(
        Summary(|index|, items, SumOf(index, HalalCount), Ratio(items, |index|), WithHalal(index)),
        TopTen(Ranked(index, Items)),
        TopTen(Ranked(index, HalalCount)),
        TopTen(Ranked(index, Categories))))
  }

  /**
   * The counts of a top list never increase, and no entry left out has a
   * larger count than the last one kept.
   */
  lemma TopTenDescending(pairs: seq<(string, nat)>)
    ensures forall i, j :: 0 <= i < j < |TopTen(pairs)| ==> TopTen(pairs)[i].1 >= TopTen(pairs)[j].1
    ensures forall i :: |TopTen(pairs)| <= i < |pairs| ==>
      SortByKey(pairs, Descending)[i].1 <= TopTen(pairs)[|TopTen(pairs)| - 1].1
  {
    var sorted := SortByKey(pairs, Descending);
    SortByKeySorted(pairs, Descending);
    var top := TopTen(pairs);
    forall i, j | 0 <= i < j < |top| ensures top[i].1 >= top[j].1 {
      assert Descending(sorted[i]) <= Descending(sorted[j]);
    }
    forall i | |top| <= i < |pairs| ensures sorted[i].1 <= top[|top| - 1].1 {
      assert Descending(sorted[|top| - 1]) <= Descending(sorted[i]);
    }
  }

  /** Every entry of a top list is one of the ranked pairs. */
  lemma TopTenMembers(pairs: seq<(string, nat)>)
    ensures forall i :: 0 <= i < |TopTen(pairs)| ==> TopTen(pairs)[i] in pairs
  {
    var sorted := SortByKey(pairs, Descending);
    SortByKeyPermutes(pairs, Descending);
    forall i | 0 <= i < |TopTen(pairs)| ensures TopTen(pairs)[i] in pairs {
      assert sorted[i] in multiset(sorted);
    }
  }

  /**
   * Sorting is stable: the pairs with any one count appear in the sorted
   * list in index order, so a top list cut through a tie keeps the
   * earliest restaurants.
   */
  lemma TopTenStable(pairs: seq<(string, nat)>, count: nat)
    ensures WithKey(SortByKey(pairs, Descending), Descending, -(count as int)) == WithKey(pairs, Descending, -(count as int))
  {
    SortByKeyStable(pairs, Descending, -(count as int));
  }
}
