/**
 * The walk over the rows of a dining unit's menu table, as the three
 * scrapers (`src/nutri_scrape.py`, `src/bot_scrape.py` and `scrape.py`)
 * perform it: a current category and the restaurant -> category -> meals
 * dictionary are updated row by row.  The browser is abstracted away: a
 * unit, its menus and its rows are given as data, and an element lookup
 * that can fail is an `Option`.
 */
module MenuWalk {
  import opened Wrappers
  import opened Text
  import opened Dicts
  import opened NutritionLabel
  import opened DiningHours

  // ---------------------------------------------------------------------
  // The three scrapers
  // ---------------------------------------------------------------------

  datatype Variant = NutriScrape | BotScrape | Scrape

  /** `bot_scrape` and `scrape` append a meal only when it is not yet in its category. */
  predicate Dedupes(v: Variant) { v != NutriScrape }

  /** `nutri_scrape` reads the badge of every unit but never skips a closed one. */
  predicate SkipsClosed(v: Variant) { v != NutriScrape }

  /**
   * On a menu that loads without menu links, `nutri_scrape` and
   * `bot_scrape` file items that have no category under "Uncategorized";
   * `scrape` drops them, as all three do on a menu reached through a link.
   */
  predicate Lenient(v: Variant, auto: bool) { auto && v != Scrape }

  const Uncategorized := "Uncategorized"
  const NoItems := "There are no items available"
  const Open := "open"

  // ---------------------------------------------------------------------
  // The page, as data
  // ---------------------------------------------------------------------

  /**
   * The meal link of an item row: its inner text, the `alt` texts of its
   * images (`None` where the attribute is missing), and what scraping its
   * nutrition modal produced (`None` without a link or on failure).
   */
  datatype ItemLink = ItemLink(innerText: string, imageAlts: seq<Option<string>>, nutrition: Option<NutritionRecord>)

  /**
   * A row of the menu table: a group row with the text of its heading
   * button (`None` when the button is missing), an item row with its meal
   * link (`None` when missing), or any other row.
   */
  datatype MenuRow = Group(heading: Option<string>) | Item(link: Option<ItemLink>) | Other

  /** The item panel shown for a menu: its text and its table rows. */
  datatype Panel = Panel(text: string, rows: seq<MenuRow>)

  /**
   * A dining unit card: its badge text and link text (`None` when the
   * element is missing), the panels reached through its menu links in
   * order (`None` where the item panel is missing), and the item panel
   * shown directly when it has no menu links.
   */
  datatype Unit = Unit(badge: Option<string>, link: Option<string>, menus: seq<Option<Panel>>, itemPanel: Option<Panel>)

  /** `bot_scrape` and `scrape` record a meal's name; `nutri_scrape` a record. */
  datatype Meal = Plain(name: string) | Detailed(name: string, isHalal: bool, nutrition: Option<NutritionRecord>)

  type Categories = Dict<seq<Meal>>
  type HalalData = Dict<Categories>

  // ---------------------------------------------------------------------
  // One item
  // ---------------------------------------------------------------------

  /** The meal name: the first line of the trimmed inner text. */
  function MealName(innerText: string): (r: string)
    ensures '\n' !in r
    ensures r == [] || !IsSpace(r[0])
  {
    var t := Trim(innerText);
    var r := FirstLine(t);
    assert r == [] || r[0] == t[0];
    r
  }

  predicate HalalAlt(alt: string) { Contains(Lower(Trim(alt)), "halal") }

  /**
   * Whether some image marks the meal halal.  Images are examined in order,
   * and a missing `alt` ends the examination (the exception is swallowed).
   */
  function HasHalalImage(alts: seq<Option<string>>): bool {
    if alts == [] then false
    else match alts[0]
      case None => false
      case Some(a) => HalalAlt(a) || HasHalalImage(alts[1..])
  }

  /** Some image before the first one without `alt` is marked halal. */
  predicate HalalBefore(alts: seq<Option<string>>, i: int) {
    0 <= i < |alts| && alts[i].Some? && HalalAlt(alts[i].value) && forall j :: 0 <= j < i ==> alts[j].Some?
  }

  /** A halal image found by the scan is one before the first image without `alt`. */
  lemma {:induction false} HalalWitness(alts: seq<Option<string>>) returns (i: int)
    requires HasHalalImage(alts)
    ensures HalalBefore(alts, i)
  {
    if HalalAlt(alts[0].value) {
      i := 0;
    } else {
      var rest := alts[1..];
      var k := HalalWitness(rest);
      i := k + 1;
      forall j | 0 <= j < i ensures alts[j].Some? {
        if j > 0 { assert alts[j] == rest[j - 1]; }
      }
    }
  }

  /** The scan finds every halal image before the first image without `alt`. */
  lemma {:induction false} HalalFound(alts: seq<Option<string>>, i: int)
    requires HalalBefore(alts, i)
    ensures HasHalalImage(alts)
    decreases i
  {
    assert alts[0].Some?;
    if !HalalAlt(alts[0].value) {
      var rest := alts[1..];
      assert i > 0;
      assert HalalBefore(rest, i - 1) by {
        forall j | 0 <= j < i - 1 ensures rest[j].Some? {
          assert rest[j] == alts[j + 1];
        }
      }
      HalalFound(rest, i - 1);
    }
  }

  lemma HasHalalImageIff(alts: seq<Option<string>>)
    ensures HasHalalImage(alts) <==> exists i :: HalalBefore(alts, i)
  {
    if HasHalalImage(alts) {
      var i := HalalWitness(alts);
    }
    if exists i :: HalalBefore(alts, i) {
      var i :| HalalBefore(alts, i);
      HalalFound(alts, i);
    }
  }


  /** The `for img in imgs` loop with its early `break`. */
  method ScanImages(alts: seq<Option<string>>) returns (isHalal: bool)
    ensures isHalal == HasHalalImage(alts)
  {
    isHalal := false;
    var i := 0;
    while i < |alts|
      invariant 0 <= i <= |alts|
      invariant HasHalalImage(alts) == HasHalalImage(alts[i..])
    {
      assert alts[i..][1..] == alts[i + 1..];
      if alts[i].None? {
        return;
      }
      if HalalAlt(alts[i].value) {
        isHalal := true;
        return;
      }
      i := i + 1;
    }
  }

  /** What an item row with a non-empty meal name contributes. */
  function MealOf(v: Variant, link: ItemLink): Option<Meal> {
    var name := MealName(link.innerText);
    if name == [] then None
    else if v == NutriScrape then Some(Detailed(name, HasHalalImage(link.imageAlts), link.nutrition))
    else Some(Plain(name))
  }

  // ---------------------------------------------------------------------
  // The row walk
  // ---------------------------------------------------------------------

  /** The walk's state: the restaurant's categories and `current_category`. */
  datatype Walk = Walk(cats: Categories, current: Option<string>)

  /** A category is set when `current_category` is a non-empty text. */
  predicate Set(current: Option<string>) { current.Some? && current.value != [] }

  /** `if c not in cats: cats[c] = []`. */
  function Opened(cats: Categories, c: string): Categories {
    if c in Keys(cats) then cats else Put(cats, c, [])
  }

  /** `cats[c].append(m)`, guarded by `m not in cats[c]` when the scraper de-duplicates. */
  function Appended(v: Variant, cats: Categories, c: string, m: Meal): Categories {
    var meals := Get(cats, c).GetOr([]);
    if Dedupes(v) && m in meals then cats else Put(cats, c, meals + [m])
  }

  /** Before an item: with no category set, a lenient walk opens "Uncategorized". */
  function Prepared(v: Variant, auto: bool, w: Walk): Walk {
    if Lenient(v, auto) && !Set(w.current) then Walk(Opened(w.cats, Uncategorized), Some(Uncategorized)) else w
  }

  /** One row of the table. */
  function Step(v: Variant, auto: bool, w: Walk, row: MenuRow): Walk {
    match row
    case Group(None) =>
      if Lenient(v, auto) then Walk(Opened(w.cats, Uncategorized), Some(Uncategorized))
      else Walk(w.cats, None)
    case Group(Some(heading)) =>
      var c := Trim(heading);
      Walk(if c != [] then Opened(w.cats, c) else w.cats, Some(c))
    case Item(link) =>
      var w' := Prepared(v, auto, w);
      if !Set(w'.current) || link.None? then w'
      else (match MealOf(v, link.value)
        case None => w'
        case Some(m) => Walk(Appended(v, w'.cats, w'.current.value, m), w'.current))
    case Other => w
  }

  /** The walk over the remaining rows. */
  function WalkFrom(v: Variant, auto: bool, w: Walk, rows: seq<MenuRow>): Walk
    decreases |rows|
  {
    if rows == [] then w else WalkFrom(v, auto, Step(v, auto, w, rows[0]), rows[1..])
  }

  /** A table walked from no current category. */
  function Walked(v: Variant, auto: bool, cats: Categories, rows: seq<MenuRow>): Categories {
    WalkFrom(v, auto, Walk(cats, None), rows).cats
  }

  /** The `for idx, row in enumerate(rows)` loop. */
  method WalkRows(v: Variant, auto: bool, cats0: Categories, rows: seq<MenuRow>) returns (cats: Categories)
    ensures cats == Walked(v, auto, cats0, rows)
  {
    cats := cats0;
    var current: Option<string> := None;
    var i := 0;
    while i < |rows|
      invariant 0 <= i <= |rows|
      invariant WalkFrom(v, auto, Walk(cats, current), rows[i..]) == WalkFrom(v, auto, Walk(cats0, None), rows)
    {
      WalkUnfold(v, auto, Walk(cats, current), rows, i);
      cats, current := VisitRow(v, auto, cats, current, rows[i]);
      i := i + 1;
    }
  }

  lemma WalkUnfold(v: Variant, auto: bool, w: Walk, rows: seq<MenuRow>, i: nat)
    requires i < |rows|
    ensures WalkFrom(v, auto, w, rows[i..]) == WalkFrom(v, auto, Step(v, auto, w, rows[i]), rows[i + 1..])
  {
    assert rows[i..][0] == rows[i] && rows[i..][1..] == rows[i + 1..];
  }

  /** The body of the row loop: a group row sets the current category, an item row files its meal. */
  method VisitRow(v: Variant, auto: bool, cats0: Categories, current0: Option<string>, row: MenuRow)
    returns (cats: Categories, current: Option<string>)
    ensures Walk(cats, current) == Step(v, auto, Walk(cats0, current0), row)
  {
    cats, current := cats0, current0;
    match row {
      case Group(heading) =>
        if heading.Some? {
          current := Some(Trim(heading.value));
          if current.value != [] && current.value !in Keys(cats) {
            cats := Put(cats, current.value, []);
          }
        } else if Lenient(v, auto) {
          current := Some(Uncategorized);
          if Uncategorized !in Keys(cats) {
            cats := Put(cats, Uncategorized, []);
          }
        } else {
          current := None;
        }
      case Item(link) =>
        if Lenient(v, auto) && !Set(current) {
          current := Some(Uncategorized);
          if Uncategorized !in Keys(cats) {
            cats := Put(cats, Uncategorized, []);
          }
        }
        assert Walk(cats, current) == Prepared(v, auto, Walk(cats0, current0));
        if Set(current) && link.Some? {
          cats := FileMeal(v, cats, current.value, link.value);
        }
      case Other =>
    }
  }

  /** An item row under category `c`: its meal, when it has a name, is appended to `cats[c]`. */
  method FileMeal(v: Variant, cats0: Categories, c: string, link: ItemLink) returns (cats: Categories)
    ensures cats == match MealOf(v, link) case None => cats0 case Some(m) => Appended(v, cats0, c, m)
  {
    cats := cats0;
    var name := MealName(link.innerText);
    if name != [] {
      var meal: Meal;
      if v == NutriScrape {
        var isHalal := ScanImages(link.imageAlts);
        meal := Detailed(name, isHalal, link.nutrition);
      } else {
        meal := Plain(name);
      }
      var meals := Get(cats, c).GetOr([]);
      if !Dedupes(v) || meal !in meals {
        cats := Put(cats, c, meals + [meal]);
      }
    }
  }

  // ---------------------------------------------------------------------
  // What the row walk keeps
  // ---------------------------------------------------------------------

  /** The current category, when set, already has a list (so `cats[c]` never raises). */
  predicate Consistent(w: Walk) {
    Valid(w.cats) && (Set(w.current) ==> w.current.value in Keys(w.cats))
  }

  /**
   * Every category is a non-empty stripped text, every meal has a
   * non-empty one-line name, and a de-duplicating scraper lists no meal
   * twice in a category.
   */
  predicate WellFormed(v: Variant, cats: Categories) {
    Valid(cats) &&
    forall k :: k in Keys(cats) ==>
      k != [] && Stripped(k) &&
      (forall m :: m in Get(cats, k).value ==> m.name != [] && '\n' !in m.name) &&
      (Dedupes(v) ==> Distinct(Get(cats, k).value))
  }

  /** No category disappears and no list loses or reorders a meal. */
  predicate Extends(a: Categories, b: Categories) {
    forall k :: k in Keys(a) ==> k in Keys(b) && Get(a, k).value <= Get(b, k).value
  }

  /** Every category of `b` is one of `a` or one of `allowed`. */
  predicate KeysFrom(a: Categories, b: Categories, allowed: set<string>) {
    forall k :: k in Keys(b) ==> k in Keys(a) || k in allowed
  }

  /** Meal `m` is listed under category `k`. */
  predicate Listed(cats: Categories, k: string, m: Meal) {
    k in Keys(cats) && m in Get(cats, k).value
  }

  /** Every meal listed in `b` was listed under the same category in `a`, or is one of `allowed`. */
  ghost predicate MealsFrom(a: Categories, b: Categories, allowed: set<Meal>) {
    forall k, m :: Listed(b, k, m) ==> Listed(a, k, m) || m in allowed
  }

  /** The trimmed heading of a group row. */
  function RowHeading(row: MenuRow): set<string> {
    if row.Group? && row.heading.Some? then {Trim(row.heading.value)} else {}
  }

  /** The meal an item row yields. */
  function RowMeal(v: Variant, row: MenuRow): set<Meal> {
    if row.Item? && row.link.Some? && MealOf(v, row.link.value).Some? then {MealOf(v, row.link.value).value} else {}
  }

  /** The trimmed headings of the group rows. */
  function Headings(rows: seq<MenuRow>): set<string>
    decreases |rows|
  {
    if rows == [] then {} else RowHeading(rows[0]) + Headings(rows[1..])
  }

  /** The meals the item rows yield. */
  function ItemMeals(v: Variant, rows: seq<MenuRow>): set<Meal>
    decreases |rows|
  {
    if rows == [] then {} else RowMeal(v, rows[0]) + ItemMeals(v, rows[1..])
  }

  /** "Uncategorized", where it may be opened. */
  function Fallback(v: Variant, auto: bool): set<string> {
    if Lenient(v, auto) then {Uncategorized} else {}
  }

  lemma ExtendsRefl(a: Categories)
    ensures Extends(a, a)
  {
  }

  lemma ExtendsTrans(a: Categories, b: Categories, c: Categories)
    requires Extends(a, b) && Extends(b, c)
    ensures Extends(a, c)
  {
    forall k | k in Keys(a) ensures k in Keys(c) && Get(a, k).value <= Get(c, k).value {
      assert Get(a, k).value <= Get(b, k).value;
    }
  }

  lemma Chain(a: Categories, b: Categories, c: Categories, k1: set<string>, k2: set<string>, m1: set<Meal>, m2: set<Meal>)
    requires Extends(a, b) && Extends(b, c)
    requires KeysFrom(a, b, k1) && KeysFrom(b, c, k2)
    requires MealsFrom(a, b, m1) && MealsFrom(b, c, m2)
    ensures Extends(a, c) && KeysFrom(a, c, k1 + k2) && MealsFrom(a, c, m1 + m2)
  {
    ExtendsTrans(a, b, c);
    KeysChain(a, b, c, k1, k2);
    MealsChain(a, b, c, m1, m2);
  }

  lemma KeysChain(a: Categories, b: Categories, c: Categories, k1: set<string>, k2: set<string>)
    requires KeysFrom(a, b, k1) && KeysFrom(b, c, k2)
    ensures KeysFrom(a, c, k1 + k2)
  {
  }

  lemma MealsChain(a: Categories, b: Categories, c: Categories, m1: set<Meal>, m2: set<Meal>)
    requires MealsFrom(a, b, m1) && MealsFrom(b, c, m2)
    ensures MealsFrom(a, c, m1 + m2)
  {
    forall k, m | Listed(c, k, m) ensures Listed(a, k, m) || m in m1 + m2 {
      if m !in m2 {
        assert Listed(b, k, m);
      }
    }
  }

  lemma UncategorizedStripped()
    ensures Uncategorized != [] && Stripped(Uncategorized)
  {
    assert Uncategorized[0] == 'U' && Uncategorized[|Uncategorized| - 1] == 'd';
  }

  /** `cats[c] = meals`, read key by key. */
  lemma PutView(cats: Categories, c: string, meals: seq<Meal>)
    requires Valid(cats)
    ensures Valid(Put(cats, c, meals)) && Get(Put(cats, c, meals), c) == Some(meals)
    ensures forall k :: k in Keys(Put(cats, c, meals)) <==> k in Keys(cats) || k == c
    ensures forall k :: k != c ==> Get(Put(cats, c, meals), k) == Get(cats, k)
  {
    forall k ensures Get(Put(cats, c, meals), k) == if k == c then Some(meals) else Get(cats, k) {
      PutGet(cats, c, meals, k);
    }
  }

  /** Giving category `c` a list that extends its old one keeps the categories well formed and grown. */
  lemma UpdateKeeps(v: Variant, cats: Categories, r: Categories, c: string, meals: seq<Meal>, added: set<Meal>)
    requires WellFormed(v, cats) && c != [] && Stripped(c) && Valid(r)
    requires forall k :: k in Keys(r) <==> k in Keys(cats) || k == c
    requires forall k :: k != c ==> Get(r, k) == Get(cats, k)
    requires Get(r, c) == Some(meals)
    requires forall m :: m in meals ==> m.name != [] && '\n' !in m.name
    requires Dedupes(v) ==> Distinct(meals)
    requires c in Keys(cats) ==> Get(cats, c).value <= meals
    requires forall m :: m in meals ==> (c in Keys(cats) && m in Get(cats, c).value) || m in added
    ensures WellFormed(v, r) && Extends(cats, r) && KeysFrom(cats, r, {c}) && MealsFrom(cats, r, added)
  {
    forall k | k in Keys(r) && k != c
      ensures Get(r, k).value == Get(cats, k).value
    {
    }
  }

  lemma OpenedKeeps(v: Variant, cats: Categories, c: string)
    requires WellFormed(v, cats) && c != [] && Stripped(c)
    ensures WellFormed(v, Opened(cats, c)) && c in Keys(Opened(cats, c))
    ensures Extends(cats, Opened(cats, c)) && KeysFrom(cats, Opened(cats, c), {c}) && MealsFrom(cats, Opened(cats, c), {})
  {
    if c !in Keys(cats) {
      PutView(cats, c, []);
      UpdateKeeps(v, cats, Put(cats, c, []), c, [], {});
    } else {
      ExtendsRefl(cats);
    }
  }

  /**
   * After the append the meal is listed under `c`: at the end of the list,
   * unless a de-duplicating scraper finds it already there. Every other
   * category, and everything the list held, stays.
   */
  lemma AppendedKeeps(v: Variant, cats: Categories, c: string, m: Meal)
    requires WellFormed(v, cats) && c in Keys(cats) && m.name != [] && '\n' !in m.name
    ensures Listed(Appended(v, cats, c, m), c, m)
    ensures !(Dedupes(v) && m in Get(cats, c).value) ==> Get(Appended(v, cats, c, m), c).value == Get(cats, c).value + [m]
    ensures forall k :: k != c ==> Get(Appended(v, cats, c, m), k) == Get(cats, k)
    ensures WellFormed(v, Appended(v, cats, c, m)) && Keys(Appended(v, cats, c, m)) == Keys(cats)
    ensures Extends(cats, Appended(v, cats, c, m)) && MealsFrom(cats, Appended(v, cats, c, m), {m})
  {
    var meals := Get(cats, c).value;
    if !(Dedupes(v) && m in meals) {
      var r := Put(cats, c, meals + [m]);
      PutView(cats, c, meals + [m]);
      forall m' | m' in meals + [m] ensures m'.name != [] && '\n' !in m'.name {
        if m' != m { assert m' in meals; }
      }
      UpdateKeeps(v, cats, r, c, meals + [m], {m});
    } else {
      ExtendsRefl(cats);
    }
  }

  lemma MealOfNamed(v: Variant, link: ItemLink)
    ensures MealOf(v, link).Some? ==> MealOf(v, link).value.name != [] && '\n' !in MealOf(v, link).value.name
  {
  }

  /**
   * The category reached before an item is handled: a set category stays;
   * with none set, a lenient walk makes "Uncategorized" current and a
   * strict one changes nothing, so a category is then set exactly when
   * one was or the walk is lenient.
   */
  lemma PreparedKeeps(v: Variant, auto: bool, w: Walk)
    requires Consistent(w) && WellFormed(v, w.cats)
    ensures Set(w.current) || !Lenient(v, auto) ==> Prepared(v, auto, w) == w
    ensures !Set(w.current) && Lenient(v, auto) ==> Prepared(v, auto, w).current == Some(Uncategorized)
    ensures Set(Prepared(v, auto, w).current) <==> Set(w.current) || Lenient(v, auto)
    ensures Consistent(Prepared(v, auto, w)) && WellFormed(v, Prepared(v, auto, w).cats)
    ensures Extends(w.cats, Prepared(v, auto, w).cats)
    ensures KeysFrom(w.cats, Prepared(v, auto, w).cats, Fallback(v, auto)) && MealsFrom(w.cats, Prepared(v, auto, w).cats, {})
  {
    UncategorizedStripped();
    if Lenient(v, auto) && !Set(w.current) {
      OpenedKeeps(v, w.cats, Uncategorized);
    }
  }

  /**
   * An item row with a meal files it under the category current once the
   * row is prepared; a strict walk with no category set drops the row.
   * The category stays current, and the row adds at most its own meal.
   */
  lemma ItemKeeps(v: Variant, auto: bool, w: Walk, link: Option<ItemLink>)
    requires Consistent(w) && WellFormed(v, w.cats)
    ensures link.Some? && MealOf(v, link.value).Some? && (Set(w.current) || Lenient(v, auto)) ==>
      Listed(Step(v, auto, w, Item(link)).cats, Prepared(v, auto, w).current.value, MealOf(v, link.value).value)
    ensures !Set(w.current) && !Lenient(v, auto) ==> Step(v, auto, w, Item(link)) == w
    ensures Step(v, auto, w, Item(link)).current == Prepared(v, auto, w).current
    ensures Consistent(Step(v, auto, w, Item(link))) && WellFormed(v, Step(v, auto, w, Item(link)).cats)
    ensures Extends(w.cats, Step(v, auto, w, Item(link)).cats)
    ensures KeysFrom(w.cats, Step(v, auto, w, Item(link)).cats, Fallback(v, auto))
    ensures MealsFrom(w.cats, Step(v, auto, w, Item(link)).cats, RowMeal(v, Item(link)))
  {
    var w' := Prepared(v, auto, w);
    PreparedKeeps(v, auto, w);
    var w2 := Step(v, auto, w, Item(link));
    if Set(w'.current) && link.Some? && MealOf(v, link.value).Some? {
      var m := MealOf(v, link.value).value;
      var c := w'.current.value;
      MealOfNamed(v, link.value);
      AppendedKeeps(v, w'.cats, c, m);
      assert w2 == Walk(Appended(v, w'.cats, c, m), w'.current);
      Chain(w.cats, w'.cats, w2.cats, Fallback(v, auto), {}, {}, {m});
      assert Fallback(v, auto) + {} == Fallback(v, auto);
      assert MealsFrom(w.cats, w2.cats, RowMeal(v, Item(link)));
    } else {
      assert w2 == w';
    }
  }

  /**
   * A group row makes its stripped heading current and opens it when it is
   * not empty; a row whose heading cannot be read makes "Uncategorized"
   * current in a lenient walk and clears the category in a strict one.
   * The row adds no meal.
   */
  lemma GroupKeeps(v: Variant, auto: bool, w: Walk, heading: Option<string>)
    requires Consistent(w) && WellFormed(v, w.cats)
    ensures heading.Some? ==> Step(v, auto, w, Group(heading)).current == Some(Trim(heading.value))
    ensures heading.Some? && Trim(heading.value) != [] ==> Trim(heading.value) in Keys(Step(v, auto, w, Group(heading)).cats)
    ensures heading.None? ==> Step(v, auto, w, Group(heading)).current == (if Lenient(v, auto) then Some(Uncategorized) else None)
    ensures Consistent(Step(v, auto, w, Group(heading))) && WellFormed(v, Step(v, auto, w, Group(heading)).cats)
    ensures Extends(w.cats, Step(v, auto, w, Group(heading)).cats)
    ensures KeysFrom(w.cats, Step(v, auto, w, Group(heading)).cats, Fallback(v, auto) + RowHeading(Group(heading)))
    ensures MealsFrom(w.cats, Step(v, auto, w, Group(heading)).cats, {})
  {
    match heading
    case None =>
      if Lenient(v, auto) {
        UncategorizedStripped();
        OpenedKeeps(v, w.cats, Uncategorized);
      }
    case Some(h) =>
      var c := Trim(h);
      if c != [] {
        OpenedKeeps(v, w.cats, c);
      }
  }

  /** The walk state just before row `k`. */
  function Before(v: Variant, auto: bool, w: Walk, rows: seq<MenuRow>, k: nat): Walk
    requires k <= |rows|
  {
    WalkFrom(v, auto, w, rows[..k])
  }

  /** Item row `k`, when it has a meal and a category, has it listed in the result under that row's category. */
  predicate RecordedAt(v: Variant, auto: bool, w: Walk, rows: seq<MenuRow>, k: nat)
    requires k < |rows|
  {
    var before := Before(v, auto, w, rows, k);
    rows[k].Item? && rows[k].link.Some? && MealOf(v, rows[k].link.value).Some? && (Set(before.current) || Lenient(v, auto)) ==>
      Listed(WalkFrom(v, auto, w, rows).cats, Prepared(v, auto, before).current.value, MealOf(v, rows[k].link.value).value)
  }

  /** Group row `k`, when its stripped heading is not empty, has that heading among the result's categories. */
  predicate OpenedAt(v: Variant, auto: bool, w: Walk, rows: seq<MenuRow>, k: nat)
    requires k < |rows|
  {
    rows[k].Group? && rows[k].heading.Some? && Trim(rows[k].heading.value) != [] ==>
      Trim(rows[k].heading.value) in Keys(WalkFrom(v, auto, w, rows).cats)
  }

  /**
   * The walk over the rows records what the rows say: every non-empty
   * heading is a category of the result, and every item's meal is listed
   * under the category current at its row (an item with no category is
   * dropped by a strict walk, as ItemKeeps says). It also keeps every
   * current category backed by a list, keeps the lists well formed, never
   * resets or shortens a list, opens only "Uncategorized" (where lenient)
   * and headings of the rows, and lists only meals of the rows' items.
   */
  lemma WalkKeeps(v: Variant, auto: bool, w: Walk, rows: seq<MenuRow>)
    requires Consistent(w) && WellFormed(v, w.cats)
    ensures forall k :: 0 <= k < |rows| ==> RecordedAt(v, auto, w, rows, k) && OpenedAt(v, auto, w, rows, k)
    ensures Consistent(WalkFrom(v, auto, w, rows)) && WellFormed(v, WalkFrom(v, auto, w, rows).cats)
    ensures Extends(w.cats, WalkFrom(v, auto, w, rows).cats)
    ensures KeysFrom(w.cats, WalkFrom(v, auto, w, rows).cats, Fallback(v, auto) + Headings(rows))
    ensures MealsFrom(w.cats, WalkFrom(v, auto, w, rows).cats, ItemMeals(v, rows))
  {
    WalkPreserves(v, auto, w, rows);
    forall k | 0 <= k < |rows| ensures RecordedAt(v, auto, w, rows, k) && OpenedAt(v, auto, w, rows, k) {
      WalkRow(v, auto, w, rows, k);
    }
  }

  /** What row `k` records survives the rows after it. */
  lemma WalkRow(v: Variant, auto: bool, w: Walk, rows: seq<MenuRow>, k: nat)
    requires Consistent(w) && WellFormed(v, w.cats) && k < |rows|
    ensures RecordedAt(v, auto, w, rows, k) && OpenedAt(v, auto, w, rows, k)
  {
    var before := Before(v, auto, w, rows, k);
    WalkPreserves(v, auto, w, rows[..k]);
    WalkSplit(v, auto, w, rows, k);
    WalkUnfold(v, auto, before, rows, k);
    var after := Step(v, auto, before, rows[k]);
    match rows[k] {
      case Item(link) => ItemKeeps(v, auto, before, link);
      case Group(h) => GroupKeeps(v, auto, before, h);
      case Other =>
    }
    WalkPreserves(v, auto, after, rows[k + 1..]);
    var final := WalkFrom(v, auto, w, rows);
    assert final == WalkFrom(v, auto, after, rows[k + 1..]);
    if rows[k].Item? && rows[k].link.Some? && MealOf(v, rows[k].link.value).Some? && (Set(before.current) || Lenient(v, auto)) {
      ListedKept(after.cats, final.cats, Prepared(v, auto, before).current.value, MealOf(v, rows[k].link.value).value);
    }
  }

  /** A meal listed before a step that extends the categories is still listed after it. */
  lemma ListedKept(a: Categories, b: Categories, k: string, m: Meal)
    requires Extends(a, b) && Listed(a, k, m)
    ensures Listed(b, k, m)
  {
    var i :| 0 <= i < |Get(a, k).value| && Get(a, k).value[i] == m;
    assert Get(b, k).value[i] == m;
  }

  /** Walking a table is walking its first `k` rows, then the rest. */
  lemma {:induction false} WalkSplit(v: Variant, auto: bool, w: Walk, rows: seq<MenuRow>, k: nat)
    requires k <= |rows|
    ensures WalkFrom(v, auto, w, rows) == WalkFrom(v, auto, WalkFrom(v, auto, w, rows[..k]), rows[k..])
    decreases k
  {
    if k == 0 {
      assert rows[..0] == [] && rows[0..] == rows;
    } else {
      var w1 := Step(v, auto, w, rows[0]);
      WalkSplit(v, auto, w1, rows[1..], k - 1);
      assert rows[1..][..k - 1] == rows[..k][1..] && rows[..k][0] == rows[0];
      assert rows[1..][k - 1..] == rows[k..];
    }
  }

  /** The invariants of the walk, carried row by row. */
  lemma {:induction false} WalkPreserves(v: Variant, auto: bool, w: Walk, rows: seq<MenuRow>)
    requires Consistent(w) && WellFormed(v, w.cats)
    ensures Consistent(WalkFrom(v, auto, w, rows)) && WellFormed(v, WalkFrom(v, auto, w, rows).cats)
    ensures Extends(w.cats, WalkFrom(v, auto, w, rows).cats)
    ensures KeysFrom(w.cats, WalkFrom(v, auto, w, rows).cats, Fallback(v, auto) + Headings(rows))
    ensures MealsFrom(w.cats, WalkFrom(v, auto, w, rows).cats, ItemMeals(v, rows))
    decreases |rows|
  {
    if rows == [] {
      assert Extends(w.cats, w.cats);
    } else {
      var w1 := Step(v, auto, w, rows[0]);
      match rows[0] {
        case Group(h) => GroupKeeps(v, auto, w, h);
        case Item(link) => ItemKeeps(v, auto, w, link);
        case Other => assert Extends(w.cats, w1.cats) && KeysFrom(w.cats, w1.cats, {}) && MealsFrom(w.cats, w1.cats, {});
      }
      WalkPreserves(v, auto, w1, rows[1..]);
      assert WalkFrom(v, auto, w, rows) == WalkFrom(v, auto, w1, rows[1..]);
      Chain(w.cats, w1.cats, WalkFrom(v, auto, w1, rows[1..]).cats,
        Fallback(v, auto) + RowHeading(rows[0]), Fallback(v, auto) + Headings(rows[1..]),
        RowMeal(v, rows[0]), ItemMeals(v, rows[1..]));
    }
  }

  // ---------------------------------------------------------------------
  // Units and menus
  // ---------------------------------------------------------------------

  /**
   * A panel: nothing when it says there are no items; otherwise the
   * restaurant gets an entry if it has none and its categories are walked.
   */
  function Visited(v: Variant, auto: bool, data: HalalData, name: string, p: Panel): HalalData {
    if Contains(p.text, NoItems) then data
    else
      var d := if name in Keys(data) then data else Put(data, name, []);
      Put(d, name, Walked(v, auto, Get(d, name).GetOr([]), p.rows))
  }

  /** The menus reached through the links, up to the first whose item panel is missing. */
  function VisitedMenus(v: Variant, data: HalalData, name: string, menus: seq<Option<Panel>>): HalalData
    decreases |menus|
  {
    if menus == [] || menus[0].None? then data
    else VisitedMenus(v, Visited(v, false, data, name, menus[0].value), name, menus[1..])
  }

  /** A unit is skipped as closed when its lower-cased badge lacks "open". */
  predicate Closed(u: Unit) { u.badge.Some? && !Contains(Lower(u.badge.value), Open) }

  /** One unit card; a missing badge or link raises and the unit is skipped. */
  function VisitedUnit(v: Variant, data: HalalData, u: Unit): HalalData {
    if u.badge.None? || u.link.None? then data
    else if SkipsClosed(v) && Closed(u) then data
    else
      var name := Trim(u.link.value);
      if u.menus != [] then VisitedMenus(v, data, name, u.menus)
      else match u.itemPanel
        case None => data
        case Some(p) => Visited(v, true, data, name, p)
  }

  function VisitedUnits(v: Variant, data: HalalData, units: seq<Unit>): HalalData
    decreases |units|
  {
    if units == [] then data else VisitedUnits(v, VisitedUnit(v, data, units[0]), units[1..])
  }

  /** `halal_data` after the loop over all unit cards. */
  function Scraped(v: Variant, units: seq<Unit>): HalalData {
    VisitedUnits(v, [], units)
  }

  /** One item panel. */
  method Visit(v: Variant, auto: bool, data: HalalData, name: string, p: Panel) returns (data': HalalData)
    ensures data' == Visited(v, auto, data, name, p)
  {
    data' := data;
    if !Contains(p.text, NoItems) {
      if name !in Keys(data') {
        data' := Put(data', name, []);
      }
      var cats := WalkRows(v, auto, Get(data', name).GetOr([]), p.rows);
      data' := Put(data', name, cats);
    }
  }

  /** The loop over a unit's menu links; an exception ends it (`break`). */
  method VisitMenus(v: Variant, data0: HalalData, name: string, menus: seq<Option<Panel>>) returns (data: HalalData)
    ensures data == VisitedMenus(v, data0, name, menus)
  {
    data := data0;
    var i := 0;
    while i < |menus|
      invariant 0 <= i <= |menus|
      invariant VisitedMenus(v, data, name, menus[i..]) == VisitedMenus(v, data0, name, menus)
    {
      assert menus[i..][1..] == menus[i + 1..];
      if menus[i].None? {
        break;
      }
      data := Visit(v, false, data, name, menus[i].value);
      i := i + 1;
    }
  }

  /** The loop over all unit cards. */
  method ScrapeUnits(v: Variant, units: seq<Unit>) returns (data: HalalData)
    ensures data == Scraped(v, units)
  {
    data := [];
    var k := 0;
    while k < |units|
      invariant 0 <= k <= |units|
      invariant VisitedUnits(v, data, units[k..]) == Scraped(v, units)
    {
      var u := units[k];
      assert units[k..][1..] == units[k + 1..];
      ghost var before := data;
      if u.badge.Some? && u.link.Some? && !(SkipsClosed(v) && Closed(u)) {
        var name := Trim(u.link.value);
        if u.menus != [] {
          data := VisitMenus(v, data, name, u.menus);
        } else if u.itemPanel.Some? {
          data := Visit(v, true, data, name, u.itemPanel.value);
        }
      }
      assert data == VisitedUnit(v, before, u);
      k := k + 1;
    }
  }

  // ---------------------------------------------------------------------
  // What the unit loop keeps
  // ---------------------------------------------------------------------

  /** Restaurant names are stripped and every restaurant's categories are well formed. */
  predicate GoodData(v: Variant, data: HalalData) {
    Valid(data) && forall r :: r in Keys(data) ==> Stripped(r) && WellFormed(v, Get(data, r).value)
  }

  /** No restaurant disappears and none of its categories is reset or shortened. */
  predicate DataExtends(a: HalalData, b: HalalData) {
    forall r :: r in Keys(a) ==> r in Keys(b) && Extends(Get(a, r).value, Get(b, r).value)
  }


  lemma DataExtendsTrans(a: HalalData, b: HalalData, c: HalalData)
    requires DataExtends(a, b) && DataExtends(b, c)
    ensures DataExtends(a, c)
  {
    forall r | r in Keys(a) ensures r in Keys(c) && Extends(Get(a, r).value, Get(c, r).value) {
      ExtendsTrans(Get(a, r).value, Get(b, r).value, Get(c, r).value);
    }
  }

  lemma DataExtendsRefl(a: HalalData)
    ensures DataExtends(a, a)
  {
    forall r | r in Keys(a) ensures Extends(Get(a, r).value, Get(a, r).value) {
      ExtendsRefl(Get(a, r).value);
    }
  }

  /** `halal_data[name] = cats` keeps the data well formed when `cats` extends what was there. */
  lemma PutKeeps(v: Variant, data: HalalData, name: string, cats: Categories)
    requires GoodData(v, data) && Stripped(name) && WellFormed(v, cats)
    requires name in Keys(data) ==> Extends(Get(data, name).value, cats)
    ensures GoodData(v, Put(data, name, cats)) && DataExtends(data, Put(data, name, cats))
  {
    var d := Put(data, name, cats);
    forall r ensures Get(d, r) == if r == name then Some(cats) else Get(data, r) {
      PutGet(data, name, cats, r);
    }
    forall r | r in Keys(data) ensures r in Keys(d) && Extends(Get(data, r).value, Get(d, r).value) {
      ExtendsRefl(Get(data, r).value);
    }
  }

  lemma VisitedKeeps(v: Variant, auto: bool, data: HalalData, name: string, p: Panel)
    requires GoodData(v, data) && Stripped(name)
    ensures GoodData(v, Visited(v, auto, data, name, p)) && DataExtends(data, Visited(v, auto, data, name, p))
  {
    if !Contains(p.text, NoItems) {
      var d := if name in Keys(data) then data else Put(data, name, []);
      OpenKeeps(v, data, name);
      WalkInKeeps(v, auto, d, name, p.rows);
      DataExtendsTrans(data, d, Put(d, name, Walked(v, auto, Get(d, name).GetOr([]), p.rows)));
    } else {
      DataExtendsRefl(data);
    }
  }

  /** Opening a restaurant's entry (`setdefault(name, {})`) keeps the data good and grown. */
  lemma OpenKeeps(v: Variant, data: HalalData, name: string)
    requires GoodData(v, data) && Stripped(name)
    ensures var d := if name in Keys(data) then data else Put(data, name, []);
      GoodData(v, d) && DataExtends(data, d) && name in Keys(d)
  {
    if name !in Keys(data) {
      PutKeeps(v, data, name, []);
    } else {
      DataExtendsRefl(data);
    }
  }

  /** Walking a panel's rows into an opened restaurant keeps the data good and grown. */
  lemma WalkInKeeps(v: Variant, auto: bool, d: HalalData, name: string, rows: seq<MenuRow>)
    requires GoodData(v, d) && Stripped(name) && name in Keys(d)
    ensures var d' := Put(d, name, Walked(v, auto, Get(d, name).GetOr([]), rows));
      GoodData(v, d') && DataExtends(d, d')
  {
    var cats := Get(d, name).value;
    WalkPreserves(v, auto, Walk(cats, None), rows);
    PutKeeps(v, d, name, Walked(v, auto, cats, rows));
  }

  lemma {:induction false} VisitedMenusKeeps(v: Variant, data: HalalData, name: string, menus: seq<Option<Panel>>)
    requires GoodData(v, data) && Stripped(name)
    ensures GoodData(v, VisitedMenus(v, data, name, menus)) && DataExtends(data, VisitedMenus(v, data, name, menus))
    decreases |menus|
  {
    if menus == [] || menus[0].None? {
      DataExtendsRefl(data);
    } else {
      var d1 := Visited(v, false, data, name, menus[0].value);
      VisitedKeeps(v, false, data, name, menus[0].value);
      VisitedMenusKeeps(v, d1, name, menus[1..]);
      DataExtendsTrans(data, d1, VisitedMenus(v, d1, name, menus[1..]));
    }
  }

  lemma VisitedUnitKeeps(v: Variant, data: HalalData, u: Unit)
    requires GoodData(v, data)
    ensures GoodData(v, VisitedUnit(v, data, u)) && DataExtends(data, VisitedUnit(v, data, u))
  {
    if u.badge.None? || u.link.None? || (SkipsClosed(v) && Closed(u)) || (u.menus == [] && u.itemPanel.None?) {
      DataExtendsRefl(data);
    } else {
      var name := Trim(u.link.value);
      TrimStripped(name);
      if u.menus != [] {
        VisitedMenusKeeps(v, data, name, u.menus);
      } else {
        VisitedKeeps(v, true, data, name, u.itemPanel.value);
      }
    }
  }

  lemma {:induction false} VisitedUnitsKeeps(v: Variant, data: HalalData, units: seq<Unit>)
    requires GoodData(v, data)
    ensures GoodData(v, VisitedUnits(v, data, units)) && DataExtends(data, VisitedUnits(v, data, units))
    decreases |units|
  {
    if units == [] {
      DataExtendsRefl(data);
    } else {
      var d1 := VisitedUnit(v, data, units[0]);
      VisitedUnitKeeps(v, data, units[0]);
      VisitedUnitsKeeps(v, d1, units[1..]);
      DataExtendsTrans(data, d1, VisitedUnits(v, d1, units[1..]));
    }
  }

  /**
   * After the loop over the units, no restaurant or category is listed
   * twice, names and categories are stripped non-empty texts (restaurant
   * names may be empty), every meal has a non-empty one-line name, and the
   * de-duplicating scrapers list every meal at most once per category.
   */
  lemma ScrapedWellFormed(v: Variant, units: seq<Unit>)
    ensures GoodData(v, Scraped(v, units))
    ensures forall r :: r in Keys(Scraped(v, units)) ==> forall k :: k in Keys(Get(Scraped(v, units), r).value) ==>
      k != [] && (Dedupes(v) ==> Distinct(Get(Get(Scraped(v, units), r).value, k).value))
  {
    VisitedUnitsKeeps(v, [], units);
  }

  /** The units left once the closed ones are removed. */
  function OpenUnits(units: seq<Unit>): (r: seq<Unit>)
    ensures forall u :: u in r ==> u in units && !Closed(u)
    ensures forall u :: u in units && !Closed(u) ==> u in r
  {
    if units == [] then []
    else if Closed(units[0]) then OpenUnits(units[1..])
    else [units[0]] + OpenUnits(units[1..])
  }

  /** `bot_scrape` and `scrape` skip closed units: dropping them first changes nothing. */
  lemma {:induction false} ClosedUnitsIgnored(v: Variant, data: HalalData, units: seq<Unit>)
    requires SkipsClosed(v)
    ensures VisitedUnits(v, data, units) == VisitedUnits(v, data, OpenUnits(units))
    decreases |units|
  {
    if units != [] {
      ClosedUnitsIgnored(v, VisitedUnit(v, data, units[0]), units[1..]);
      if !Closed(units[0]) {
        assert ([units[0]] + OpenUnits(units[1..]))[1..] == OpenUnits(units[1..]);
      }
    }
  }

  /** On a menu reached through a link, `bot_scrape` and `scrape` walk the rows alike. */
  lemma {:induction false} MenuPathAgrees(w: Walk, rows: seq<MenuRow>)
    ensures WalkFrom(BotScrape, false, w, rows) == WalkFrom(Scrape, false, w, rows)
    decreases |rows|
  {
    if rows != [] {
      StepAgrees(w, rows[0]);
      MenuPathAgrees(Step(Scrape, false, w, rows[0]), rows[1..]);
    }
  }

  /** One row through a link: neither scraper is lenient, both de-duplicate and both record plain meals. */
  lemma StepAgrees(w: Walk, row: MenuRow)
    ensures Step(BotScrape, false, w, row) == Step(Scrape, false, w, row)
  {
    assert !Lenient(BotScrape, false) && !Lenient(Scrape, false);
    assert Prepared(BotScrape, false, w) == w == Prepared(Scrape, false, w);
    if row.Item? && row.link.Some? {
      assert MealOf(BotScrape, row.link.value) == MealOf(Scrape, row.link.value);
      forall c, m ensures Appended(BotScrape, w.cats, c, m) == Appended(Scrape, w.cats, c, m) {
      }
    }
  }

  // ---------------------------------------------------------------------
  // Output shaping
  // ---------------------------------------------------------------------

  /** `any(meals for meals in cats.values())`. */
  predicate HasMeals(cats: Categories) {
    exists i :: 0 <= i < |cats| && cats[i].1 != []
  }

  /** The restaurants with at least one meal, in their order. */
  function NonEmpty(data: HalalData): HalalData
    decreases |data|
  {
    if data == [] then []
    else (if HasMeals(data[0].1) then [data[0]] else []) + NonEmpty(data[1..])
  }

  /** The categories with at least one meal, in their order. */
  function Filled(cats: Categories): Categories
    decreases |cats|
  {
    if cats == [] then []
    else (if cats[0].1 != [] then [cats[0]] else []) + Filled(cats[1..])
  }

  /** The filter keeps exactly the restaurants that have a meal. */
  lemma {:induction false} NonEmptyMembers(data: HalalData)
    ensures forall x :: x in NonEmpty(data) <==> x in data && HasMeals(x.1)
    decreases |data|
  {
    if data != [] {
      NonEmptyMembers(data[1..]);
      assert forall x :: x in data <==> x == data[0] || x in data[1..];
    }
  }

  /** The categories kept are exactly those with a meal. */
  lemma {:induction false} FilledMembers(cats: Categories)
    ensures forall x :: x in Filled(cats) <==> x in cats && x.1 != []
    decreases |cats|
  {
    if cats != [] {
      FilledMembers(cats[1..]);
      assert forall x :: x in cats <==> x == cats[0] || x in cats[1..];
    }
  }

  /** A restaurant survives the filter exactly when one of its categories has a meal. */
  lemma NonEmptyKeys(data: HalalData, r: string)
    requires Valid(data)
    ensures r in Keys(NonEmpty(data)) <==> r in Keys(data) && HasMeals(Get(data, r).value)
    ensures r in Keys(NonEmpty(data)) ==> Get(NonEmpty(data), r) == Get(data, r)
  {
    var f := NonEmpty(data);
    NonEmptyMembers(data);
    if r in Keys(f) {
      var i :| 0 <= i < |f| && f[i].0 == r;
      assert f[i] in data;
      var j :| 0 <= j < |data| && data[j] == f[i];
      assert Keys(data)[j] == r;
    }
    if r in Keys(data) && HasMeals(Get(data, r).value) {
      var j :| 0 <= j < |data| && data[j].0 == r;
      assert data[j] in f;
      var i :| 0 <= i < |f| && f[i] == data[j];
      assert Keys(f)[i] == r;
    }
  }

  // The text report of `bot_scrape` (with hours) and `scrape` (without).

  /** One line per meal, in order. */
  function MealLines(meals: seq<Meal>): seq<string> {
    if meals == [] then [] else ["    - " + meals[0].name] + MealLines(meals[1..])
  }

  /** Each non-empty category: its heading line, then one line per meal. */
  function CategoryLines(cats: Categories): seq<string>
    decreases |cats|
  {
    if cats == [] then []
    else (if cats[0].1 == [] then [] else ["  " + cats[0].0 + ":"] + MealLines(cats[0].1)) + CategoryLines(cats[1..])
  }

  /** The first line of a restaurant's block. */
  function Header(hours: Option<Dict<string>>, restaurant: string): string {
    match hours
    case None => restaurant
    case Some(h) => restaurant + " - " + HoursFor(h, restaurant)
  }

  function Block(hours: Option<Dict<string>>, restaurant: string, cats: Categories): seq<string> {
    [Header(hours, restaurant)] + CategoryLines(cats) + [""]
  }

  /** The report over a filtered dictionary. */
  function ReportOf(hours: Option<Dict<string>>, data: HalalData): seq<string>
    decreases |data|
  {
    if data == [] then [] else Block(hours, data[0].0, data[0].1) + ReportOf(hours, data[1..])
  }

  lemma {:induction false} MealLinesSnoc(meals: seq<Meal>, m: Meal)
    ensures MealLines(meals + [m]) == MealLines(meals) + ["    - " + m.name]
  {
    if meals != [] {
      assert (meals + [m])[1..] == meals[1..] + [m];
      MealLinesSnoc(meals[1..], m);
    }
  }

  /** The `for meal in meals` loop. */
  method WriteMeals(meals: seq<Meal>) returns (lines: seq<string>)
    ensures lines == MealLines(meals)
  {
    lines := [];
    var j := 0;
    while j < |meals|
      invariant 0 <= j <= |meals|
      invariant lines == MealLines(meals[..j])
    {
      MealLinesSnoc(meals[..j], meals[j]);
      assert meals[..j + 1] == meals[..j] + [meals[j]];
      lines := lines + ["    - " + meals[j].name];
      j := j + 1;
    }
    assert meals[..j] == meals;
  }

  /** The lines written for one restaurant's categories. */
  method WriteCategories(cats: Categories) returns (lines: seq<string>)
    ensures lines == CategoryLines(cats)
  {
    lines := [];
    var i := 0;
    while i < |cats|
      invariant 0 <= i <= |cats|
      invariant lines + CategoryLines(cats[i..]) == CategoryLines(cats)
    {
      var (category, meals) := cats[i];
      var written: seq<string> := [];
      if meals != [] {
        var bullets := WriteMeals(meals);
        written := ["  " + category + ":"] + bullets;
      }
      CategoryLinesUnfold(cats, i);
      Reassociate(lines, written, CategoryLines(cats[i + 1..]), CategoryLines(cats));
      lines := lines + written;
      i := i + 1;
    }
  }

  lemma CategoryLinesUnfold(cats: Categories, i: nat)
    requires i < |cats|
    ensures CategoryLines(cats[i..]) == (if cats[i].1 == [] then [] else ["  " + cats[i].0 + ":"] + MealLines(cats[i].1)) + CategoryLines(cats[i + 1..])
  {
    assert cats[i..][0] == cats[i] && cats[i..][1..] == cats[i + 1..];
  }

  /**
   * The report file, one line per `f.write`: for every restaurant that has
   * a meal, its header, its non-empty categories and a blank line.
   */
  method WriteReport(hours: Option<Dict<string>>, data: HalalData) returns (lines: seq<string>)
    ensures lines == ReportOf(hours, NonEmpty(data))
  {
    var kept := NonEmpty(data);
    lines := [];
    var i := 0;
    while i < |kept|
      invariant 0 <= i <= |kept|
      invariant lines + ReportOf(hours, kept[i..]) == ReportOf(hours, kept)
    {
      var (restaurant, cats) := kept[i];
      var body := WriteCategories(cats);
      var block := [Header(hours, restaurant)] + body + [""];
      ReportStep(hours, kept, i, lines);
      lines := lines + block;
      i := i + 1;
    }
  }

  /** Writing one more restaurant's block keeps the loop invariant of `WriteReport`. */
  lemma ReportStep(hours: Option<Dict<string>>, kept: HalalData, i: nat, lines: seq<string>)
    requires i < |kept| && lines + ReportOf(hours, kept[i..]) == ReportOf(hours, kept)
    ensures (lines + Block(hours, kept[i].0, kept[i].1)) + ReportOf(hours, kept[i + 1..]) == ReportOf(hours, kept)
  {
    ReportUnfold(hours, kept, i);
    Reassociate(lines, Block(hours, kept[i].0, kept[i].1), ReportOf(hours, kept[i + 1..]), ReportOf(hours, kept));
  }

  lemma ReportUnfold(hours: Option<Dict<string>>, kept: HalalData, i: nat)
    requires i < |kept|
    ensures ReportOf(hours, kept[i..]) == Block(hours, kept[i].0, kept[i].1) + ReportOf(hours, kept[i + 1..])
  {
    assert kept[i..][0] == kept[i] && kept[i..][1..] == kept[i + 1..];
  }

  /** Moving the next piece from the part still to write to the part written. */
  lemma Reassociate<T>(done: seq<T>, piece: seq<T>, rest: seq<T>, whole: seq<T>)
    requires done + (piece + rest) == whole
    ensures (done + piece) + rest == whole
  {
  }

  /** A line of the report that lists a meal. */
  predicate Bullet(line: string) { |line| >= 6 && line[..6] == "    - " }

  function Bullets(lines: seq<string>): (r: seq<string>)
    decreases |lines|
  {
    if lines == [] then [] else (if Bullet(lines[0]) then [lines[0]] else []) + Bullets(lines[1..])
  }

  /** Every meal of every category, in order, as report lines. */
  function AllMealLines(data: HalalData): seq<string>
    decreases |data|
  {
    if data == [] then [] else AllCategoryMeals(data[0].1) + AllMealLines(data[1..])
  }

  function AllCategoryMeals(cats: Categories): seq<string>
    decreases |cats|
  {
    if cats == [] then [] else MealLines(cats[0].1) + AllCategoryMeals(cats[1..])
  }

  /** Restaurant names are stripped and category names start with a non-space. */
  predicate ReportReady(data: HalalData) {
    forall i :: 0 <= i < |data| ==> ReadyEntry(data[i])
  }

  /** A restaurant name without surrounding whitespace, and category names that start with a visible character. */
  predicate ReadyEntry(entry: (string, Categories)) {
    Stripped(entry.0) && forall j :: 0 <= j < |entry.1| ==> entry.1[j].0 != [] && !IsSpace(entry.1[j].0[0])
  }

  lemma {:induction false} BulletsAppend(a: seq<string>, b: seq<string>)
    ensures Bullets(a + b) == Bullets(a) + Bullets(b)
    decreases |a|
  {
    if a != [] {
      assert (a + b)[0] == a[0] && (a + b)[1..] == a[1..] + b;
      BulletsAppend(a[1..], b);
      var x := if Bullet(a[0]) then [a[0]] else [];
      assert Bullets(a + b) == x + Bullets(a[1..] + b);
      assert Bullets(a) == x + Bullets(a[1..]);
      assert x + (Bullets(a[1..]) + Bullets(b)) == (x + Bullets(a[1..])) + Bullets(b);
    } else {
      assert a + b == b;
    }
  }

  lemma {:induction false} BulletsOfMeals(meals: seq<Meal>)
    ensures Bullets(MealLines(meals)) == MealLines(meals)
    decreases |meals|
  {
    if meals != [] {
      var line := "    - " + meals[0].name;
      assert line[..6] == "    - ";
      BulletsAppend([line], MealLines(meals[1..]));
      BulletsOfMeals(meals[1..]);
    }
  }

  lemma HeadingNotBullet(c: string)
    requires c != [] && !IsSpace(c[0])
    ensures !Bullet("  " + c + ":")
  {
    assert ("  " + c + ":")[2] == c[0];
  }

  lemma HeaderNotBullet(hours: Option<Dict<string>>, r: string)
    requires Stripped(r)
    ensures !Bullet(Header(hours, r))
  {
    var h := Header(hours, r);
    if r != [] {
      assert h[0] == r[0];
    } else if hours.Some? {
      assert h == " - " + HoursFor(hours.value, r);
      assert h[1] == '-';
    }
  }

  /** The lines of one category: only its meal lines are bullets. */
  lemma BulletsOfCategory(c: string, meals: seq<Meal>)
    requires c != [] && !IsSpace(c[0])
    ensures Bullets(if meals == [] then [] else ["  " + c + ":"] + MealLines(meals)) == MealLines(meals)
  {
    if meals != [] {
      HeadingNotBullet(c);
      BulletsAppend(["  " + c + ":"], MealLines(meals));
      BulletsOfMeals(meals);
      assert Bullets(["  " + c + ":"]) == [];
    }
  }

  lemma {:induction false} BulletsOfCategories(cats: Categories)
    requires forall j :: 0 <= j < |cats| ==> cats[j].0 != [] && !IsSpace(cats[j].0[0])
    ensures Bullets(CategoryLines(cats)) == AllCategoryMeals(cats)
    decreases |cats|
  {
    if cats != [] {
      var first := if cats[0].1 == [] then [] else ["  " + cats[0].0 + ":"] + MealLines(cats[0].1);
      assert CategoryLines(cats) == first + CategoryLines(cats[1..]);
      BulletsAppend(first, CategoryLines(cats[1..]));
      assert forall j :: 0 <= j < |cats[1..]| ==> cats[1..][j] == cats[j + 1];
      BulletsOfCategories(cats[1..]);
      BulletsOfCategory(cats[0].0, cats[0].1);
    }
  }

  /** A single line is a bullet list of itself or of nothing. */
  lemma BulletsOfLine(line: string)
    ensures Bullets([line]) == if Bullet(line) then [line] else []
  {
    assert [line][1..] == [];
  }

  /** Lines that are not bullets around a block add no bullet. */
  lemma BulletsAround(first: string, body: seq<string>, last: string)
    requires !Bullet(first) && !Bullet(last)
    ensures Bullets([first] + body + [last]) == Bullets(body)
  {
    calc {
      Bullets([first] + body + [last]);
      { BulletsAppend([first] + body, [last]); }
      Bullets([first] + body) + Bullets([last]);
      { BulletsAppend([first], body); }
      Bullets([first]) + Bullets(body) + Bullets([last]);
      { BulletsOfLine(first); BulletsOfLine(last); }
      Bullets(body);
    }
  }

  /** A header that is no bullet and the closing blank line add nothing to a block's bullets. */
  lemma FramedBullets(header: string, body: seq<string>, meals: seq<string>)
    requires !Bullet(header) && Bullets(body) == meals
    ensures Bullets([header] + body + [""]) == meals
  {
    BulletsAround(header, body, "");
  }

  /** The lines of one restaurant: only its meal lines are bullets. */
  lemma BlockBullets(hours: Option<Dict<string>>, r: string, cats: Categories)
    requires Stripped(r)
    requires forall j :: 0 <= j < |cats| ==> cats[j].0 != [] && !IsSpace(cats[j].0[0])
    ensures Bullets(Block(hours, r, cats)) == AllCategoryMeals(cats)
  {
    HeaderNotBullet(hours, r);
    BulletsOfCategories(cats);
    FramedBullets(Header(hours, r), CategoryLines(cats), AllCategoryMeals(cats));
  }

  lemma {:induction false} BulletsOfReport(hours: Option<Dict<string>>, data: HalalData)
    requires ReportReady(data)
    ensures Bullets(ReportOf(hours, data)) == AllMealLines(data)
    decreases |data|
  {
    if data != [] {
      assert ReportReady(data[1..]) by {
        forall i | 0 <= i < |data[1..]| ensures data[1..][i] == data[i + 1] { }
      }
      BulletsOfReport(hours, data[1..]);
      BulletsAppend(Block(hours, data[0].0, data[0].1), ReportOf(hours, data[1..]));
      BlockBullets(hours, data[0].0, data[0].1);
    }
  }

  lemma {:induction false} NoMealLines(cats: Categories)
    requires !HasMeals(cats)
    ensures AllCategoryMeals(cats) == []
    decreases |cats|
  {
    if cats != [] {
      assert cats[0].1 == [];
      assert !HasMeals(cats[1..]) by {
        forall i | 0 <= i < |cats[1..]| ensures cats[1..][i].1 == [] { assert cats[1..][i] == cats[i + 1]; }
      }
      NoMealLines(cats[1..]);
    }
  }

  lemma {:induction false} NonEmptyMealLines(data: HalalData)
    ensures AllMealLines(NonEmpty(data)) == AllMealLines(data)
    ensures ReportReady(data) ==> ReportReady(NonEmpty(data))
    decreases |data|
  {
    if data != [] {
      NonEmptyMealLines(data[1..]);
      AllMealLinesAppend(if HasMeals(data[0].1) then [data[0]] else [], NonEmpty(data[1..]));
      if !HasMeals(data[0].1) { NoMealLines(data[0].1); }
    }
    if ReportReady(data) {
      NonEmptyReady(data);
    }
  }

  lemma NonEmptyReady(data: HalalData)
    requires ReportReady(data)
    ensures ReportReady(NonEmpty(data))
  {
    NonEmptyMembers(data);
    forall i | 0 <= i < |NonEmpty(data)| ensures ReadyEntry(NonEmpty(data)[i]) {
      var x := NonEmpty(data)[i];
      assert x in data;
      var k :| 0 <= k < |data| && data[k] == x;
    }
  }

  lemma {:induction false} AllMealLinesAppend(a: HalalData, b: HalalData)
    ensures AllMealLines(a + b) == AllMealLines(a) + AllMealLines(b)
    decreases |a|
  {
    if a != [] {
      assert (a + b)[0] == a[0] && (a + b)[1..] == a[1..] + b;
      AllMealLinesAppend(a[1..], b);
      var x := AllCategoryMeals(a[0].1);
      assert AllMealLines(a + b) == x + AllMealLines(a[1..] + b);
      assert AllMealLines(a) == x + AllMealLines(a[1..]);
      assert x + (AllMealLines(a[1..]) + AllMealLines(b)) == (x + AllMealLines(a[1..])) + AllMealLines(b);
    } else {
      assert a + b == b;
    }
  }

  /** Scraped data meets what the report needs of its names. */
  lemma ScrapedReportReady(v: Variant, units: seq<Unit>)
    ensures ReportReady(Scraped(v, units))
  {
    var data := Scraped(v, units);
    ScrapedWellFormed(v, units);
    forall i | 0 <= i < |data| ensures Stripped(data[i].0) &&
      forall j :: 0 <= j < |data[i].1| ==> data[i].1[j].0 != [] && !IsSpace(data[i].1[j].0[0]) {
      assert Keys(data)[i] == data[i].0;
      assert Get(data, data[i].0) == Some(data[i].1);
      var cats := data[i].1;
      assert WellFormed(v, cats);
      forall j | 0 <= j < |cats| ensures cats[j].0 != [] && !IsSpace(cats[j].0[0]) {
        assert Keys(cats)[j] == cats[j].0;
        assert cats[j].0 in Keys(cats);
        assert Stripped(cats[j].0);
      }
    }
  }

  /**
   * The meal lines of the report (those starting with "    - ") are
   * exactly the scraped meals, every category's list in order: the
   * restaurant, category and blank lines never look like one.
   */
  lemma ReportListsEveryMeal(v: Variant, hours: Option<Dict<string>>, units: seq<Unit>)
    ensures Bullets(ReportOf(hours, NonEmpty(Scraped(v, units)))) == AllMealLines(Scraped(v, units))
  {
    ScrapedReportReady(v, units);
    NonEmptyMealLines(Scraped(v, units));
    BulletsOfReport(hours, NonEmpty(Scraped(v, units)));
  }

  // The restaurant list of `nutri_scrape`'s JSON output.

  datatype CategoryJson = CategoryJson(name: string, meals: seq<Meal>)
  datatype RestaurantJson = RestaurantJson(name: string, hours: string, categories: seq<CategoryJson>)

  function CategoriesJson(cats: Categories): seq<CategoryJson>
    decreases |cats|
  {
    if cats == [] then []
    else (if cats[0].1 == [] then [] else [CategoryJson(cats[0].0, cats[0].1)]) + CategoriesJson(cats[1..])
  }

  function RestaurantsJson(hours: Dict<string>, data: HalalData): seq<RestaurantJson>
    decreases |data|
  {
    if data == [] then []
    else
      var entry := RestaurantJson(data[0].0, HoursFor(hours, data[0].0), CategoriesJson(data[0].1));
      [entry] + RestaurantsJson(hours, data[1..])
  }

  /** The `for category, meals in categories.items()` loop of the JSON output. */
  method CategoryEntries(cats: Categories) returns (entries: seq<CategoryJson>)
    ensures entries == CategoriesJson(cats)
  {
    entries := [];
    var i := 0;
    while i < |cats|
      invariant 0 <= i <= |cats|
      invariant entries + CategoriesJson(cats[i..]) == CategoriesJson(cats)
    {
      assert cats[i..][1..] == cats[i + 1..];
      var (category, meals) := cats[i];
      var added: seq<CategoryJson> := [];
      if meals != [] {
        added := [CategoryJson(category, meals)];
      }
      assert CategoriesJson(cats[i..]) == added + CategoriesJson(cats[i + 1..]);
      assert (entries + added) + CategoriesJson(cats[i + 1..]) == entries + (added + CategoriesJson(cats[i + 1..]));
      entries := entries + added;
      i := i + 1;
    }
  }

  /** `json_output["restaurants"]`: one entry per restaurant that has a meal. */
  method BuildJson(hours: Dict<string>, data: HalalData) returns (restaurants: seq<RestaurantJson>)
    ensures restaurants == RestaurantsJson(hours, NonEmpty(data))
  {
    var kept := NonEmpty(data);
    restaurants := [];
    var i := 0;
    while i < |kept|
      invariant 0 <= i <= |kept|
      invariant restaurants + RestaurantsJson(hours, kept[i..]) == RestaurantsJson(hours, kept)
    {
      assert kept[i..][1..] == kept[i + 1..];
      var (restaurant, cats) := kept[i];
      var entries := CategoryEntries(cats);
      var entry := RestaurantJson(restaurant, HoursFor(hours, restaurant), entries);
      assert RestaurantsJson(hours, kept[i..]) == [entry] + RestaurantsJson(hours, kept[i + 1..]);
      assert (restaurants + [entry]) + RestaurantsJson(hours, kept[i + 1..]) == restaurants + ([entry] + RestaurantsJson(hours, kept[i + 1..]));
      restaurants := restaurants + [entry];
      i := i + 1;
    }
  }

  /** The JSON categories are the categories that have a meal, in order, with their meals. */
  lemma {:induction false} CategoriesJsonFilled(cats: Categories)
    ensures |CategoriesJson(cats)| == |Filled(cats)|
    ensures forall j :: 0 <= j < |Filled(cats)| ==> CategoriesJson(cats)[j] == CategoryJson(Filled(cats)[j].0, Filled(cats)[j].1)
    ensures HasMeals(cats) ==> CategoriesJson(cats) != []
    decreases |cats|
  {
    if cats != [] {
      CategoriesJsonFilled(cats[1..]);
      if HasMeals(cats) && cats[0].1 == [] {
        var i :| 0 <= i < |cats| && cats[i].1 != [];
        assert cats[1..][i - 1] == cats[i];
      }
    }
  }

  /**
   * The JSON list has one entry per restaurant with a meal, in order, with
   * its hours (or "Hours not available"); every entry has a category and
   * every category a meal.
   */
  lemma {:induction false} JsonShape(hours: Dict<string>, data: HalalData)
    ensures |RestaurantsJson(hours, NonEmpty(data))| == |NonEmpty(data)|
    ensures forall i :: 0 <= i < |NonEmpty(data)| ==>
      var e := RestaurantsJson(hours, NonEmpty(data))[i];
      e.name == NonEmpty(data)[i].0 && e.hours == HoursFor(hours, e.name) && e.categories != [] &&
      forall j :: 0 <= j < |e.categories| ==> e.categories[j].meals != []
  {
    var kept := NonEmpty(data);
    NonEmptyMembers(data);
    JsonEntries(hours, kept);
  }

  /** A JSON entry for restaurant `name`: its hours, and only categories that have a meal. */
  predicate EntryShaped(hours: Dict<string>, e: RestaurantJson, name: string) {
    e.name == name && e.hours == HoursFor(hours, e.name) && e.categories != [] &&
    forall j :: 0 <= j < |e.categories| ==> e.categories[j].meals != []
  }

  /** The entry of the first restaurant is shaped when it has a meal. */
  lemma HeadEntryShaped(hours: Dict<string>, kept: HalalData)
    requires kept != [] && HasMeals(kept[0].1)
    ensures EntryShaped(hours, RestaurantsJson(hours, kept)[0], kept[0].0)
  {
    var cats := kept[0].1;
    CategoriesJsonFilled(cats);
    FilledMembers(cats);
    forall j | 0 <= j < |CategoriesJson(cats)| ensures CategoriesJson(cats)[j].meals != [] {
      assert Filled(cats)[j] in Filled(cats);
    }
  }

  /** Past the first restaurant, the entries are those of the remaining restaurants. */
  lemma RestaurantsJsonTail(hours: Dict<string>, kept: HalalData, i: nat)
    requires 1 <= i < |kept| && |RestaurantsJson(hours, kept[1..])| == |kept| - 1
    ensures RestaurantsJson(hours, kept)[i] == RestaurantsJson(hours, kept[1..])[i - 1]
  {
  }

  lemma {:induction false} JsonEntries(hours: Dict<string>, kept: HalalData)
    requires forall x :: x in kept ==> HasMeals(x.1)
    ensures |RestaurantsJson(hours, kept)| == |kept|
    ensures forall i :: 0 <= i < |kept| ==> EntryShaped(hours, RestaurantsJson(hours, kept)[i], kept[i].0)
    decreases |kept|
  {
    if kept != [] {
      var rest := RestaurantsJson(hours, kept[1..]);
      assert forall x :: x in kept[1..] ==> x in kept;
      JsonEntries(hours, kept[1..]);
      assert kept[0] in kept;
      HeadEntryShaped(hours, kept);
      forall i | 1 <= i < |kept| ensures EntryShaped(hours, RestaurantsJson(hours, kept)[i], kept[i].0) {
        RestaurantsJsonTail(hours, kept, i);
        assert kept[1..][i - 1] == kept[i];
      }
    }
  }

  // The PDF elements of `scrape`: a title, one table per non-empty
  // category, and a page break between consecutive restaurants.

  datatype Element = Title(text: string) | Gap(height: nat) | Table(data: seq<seq<string>>) | PageBreak

  function MealRows(meals: seq<Meal>): seq<seq<string>> {
    if meals == [] then [] else [[meals[0].name]] + MealRows(meals[1..])
  }

  /** `[[category]] + [[meal] for meal in meals]`. */
  function TableData(category: string, meals: seq<Meal>): seq<seq<string>> {
    [[category]] + MealRows(meals)
  }

  /** A table starts with its category row, then one row per meal, in order. */
  lemma {:induction false} TableDataRows(category: string, meals: seq<Meal>)
    ensures |TableData(category, meals)| == |meals| + 1 && TableData(category, meals)[0] == [category]
    ensures forall k :: 0 <= k < |meals| ==> TableData(category, meals)[k + 1] == [meals[k].name]
  {
    MealRowsNames(meals);
  }

  lemma {:induction false} MealRowsNames(meals: seq<Meal>)
    ensures |MealRows(meals)| == |meals|
    ensures forall k :: 0 <= k < |meals| ==> MealRows(meals)[k] == [meals[k].name]
  {
    if meals != [] {
      MealRowsNames(meals[1..]);
      assert forall k :: 1 <= k < |meals| ==> MealRows(meals)[k] == MealRows(meals[1..])[k - 1];
    }
  }

  function Tables(cats: Categories): seq<Element>
    decreases |cats|
  {
    if cats == [] then []
    else (if cats[0].1 == [] then [] else [Table(TableData(cats[0].0, cats[0].1)), Gap(12)]) + Tables(cats[1..])
  }

  /** The elements of the restaurants left to lay out; a page break follows all but the last. */
  function Elements(data: HalalData): seq<Element>
    decreases |data|
  {
    if data == [] then []
    else
      var brk: seq<Element> := if |data| > 1 then [PageBreak] else [];
      [Title("<b>" + data[0].0 + "</b>"), Gap(10)] + Tables(data[0].1) + brk + Elements(data[1..])
  }

  /** The `for category, meals in categories.items()` loop of the PDF. */
  method TableElements(cats: Categories) returns (elements: seq<Element>)
    ensures elements == Tables(cats)
  {
    elements := [];
    var i := 0;
    while i < |cats|
      invariant 0 <= i <= |cats|
      invariant elements + Tables(cats[i..]) == Tables(cats)
    {
      var (category, meals) := cats[i];
      var added: seq<Element> := [];
      if meals != [] {
        added := [Table(TableData(category, meals)), Gap(12)];
      }
      TablesStep(cats, i, elements);
      elements := elements + added;
      i := i + 1;
    }
  }

  /** Laying out one more category keeps the loop invariant of `TableElements`. */
  lemma TablesStep(cats: Categories, i: nat, done: seq<Element>)
    requires i < |cats| && done + Tables(cats[i..]) == Tables(cats)
    ensures var added := if cats[i].1 == [] then [] else [Table(TableData(cats[i].0, cats[i].1)), Gap(12)];
      (done + added) + Tables(cats[i + 1..]) == Tables(cats)
  {
    var added := if cats[i].1 == [] then [] else [Table(TableData(cats[i].0, cats[i].1)), Gap(12)];
    TablesUnfold(cats, i);
    Reassociate(done, added, Tables(cats[i + 1..]), Tables(cats));
  }

  lemma TablesUnfold(cats: Categories, i: nat)
    requires i < |cats|
    ensures Tables(cats[i..]) == (if cats[i].1 == [] then [] else [Table(TableData(cats[i].0, cats[i].1)), Gap(12)]) + Tables(cats[i + 1..])
  {
    assert cats[i..][0] == cats[i] && cats[i..][1..] == cats[i + 1..];
  }

  /** The `for idx, (restaurant, categories) in enumerate(...)` loop of the PDF. */
  method BuildPdfElements(data: HalalData) returns (elements: seq<Element>)
    ensures elements == Elements(NonEmpty(data))
  {
    var kept := NonEmpty(data);
    elements := [];
    var idx := 0;
    while idx < |kept|
      invariant 0 <= idx <= |kept|
      invariant elements + Elements(kept[idx..]) == Elements(kept)
    {
      assert kept[idx..][1..] == kept[idx + 1..];
      var (restaurant, cats) := kept[idx];
      var tables := TableElements(cats);
      var added := [Title("<b>" + restaurant + "</b>"), Gap(10)] + tables;
      if idx < |kept| - 1 {
        added := added + [PageBreak];
      }
      assert Elements(kept[idx..]) == added + Elements(kept[idx + 1..]);
      assert (elements + added) + Elements(kept[idx + 1..]) == elements + (added + Elements(kept[idx + 1..]));
      elements := elements + added;
      idx := idx + 1;
    }
  }

  function Breaks(es: seq<Element>): nat {
    if es == [] then 0 else (if es[0].PageBreak? then 1 else 0) + Breaks(es[1..])
  }

  lemma {:induction false} BreaksAppend(a: seq<Element>, b: seq<Element>)
    ensures Breaks(a + b) == Breaks(a) + Breaks(b)
    decreases |a|
  {
    if a == [] {
      assert a + b == b;
    } else {
      assert (a + b)[0] == a[0] && (a + b)[1..] == a[1..] + b;
      BreaksAppend(a[1..], b);
    }
  }

  lemma {:induction false} TablesHaveNoBreak(cats: Categories)
    ensures Breaks(Tables(cats)) == 0
    ensures forall i :: 0 <= i < |Tables(cats)| ==> !Tables(cats)[i].PageBreak? && !Tables(cats)[i].Title?
    decreases |cats|
  {
    if cats != [] {
      var first: seq<Element> := if cats[0].1 == [] then [] else [Table(TableData(cats[0].0, cats[0].1)), Gap(12)];
      TablesHaveNoBreak(cats[1..]);
      BreaksAppend(first, Tables(cats[1..]));
      assert Breaks(first) == 0;
    }
  }

  /**
   * Page breaks separate consecutive restaurants: n restaurants give
   * n - 1 breaks, the layout never ends with one, and every break is
   * followed by the next restaurant's title.
   */
  lemma {:induction false} PageBreaksBetween(data: HalalData)
    ensures data != [] ==> Breaks(Elements(data)) == |data| - 1
    ensures data != [] ==> !Elements(data)[|Elements(data)| - 1].PageBreak?
    ensures forall p :: 0 <= p < |Elements(data)| && Elements(data)[p].PageBreak? ==>
      p + 1 < |Elements(data)| && Elements(data)[p + 1].Title?
    decreases |data|
  {
    if data != [] {
      var head := [Title("<b>" + data[0].0 + "</b>"), Gap(10)] + Tables(data[0].1);
      var brk: seq<Element> := if |data| > 1 then [PageBreak] else [];
      var rest := Elements(data[1..]);
      var es := Elements(data);
      assert es == head + brk + rest;
      PageBreaksBetween(data[1..]);
      TablesHaveNoBreak(data[0].1);
      BreaksAppend(head, brk);
      BreaksAppend(head + brk, rest);
      BreaksAppend([Title("<b>" + data[0].0 + "</b>"), Gap(10)], Tables(data[0].1));
      assert forall i :: 0 <= i < |head| ==> !head[i].PageBreak? by {
        forall i | 0 <= i < |head| ensures !head[i].PageBreak? {
          if i >= 2 { assert head[i] == Tables(data[0].1)[i - 2]; }
        }
      }
      if |data| > 1 {
        assert rest[0].Title?;
      } else {
        assert rest == [];
        assert es[|es| - 1] == head[|head| - 1];
      }
      forall p | 0 <= p < |es| && es[p].PageBreak? ensures p + 1 < |es| && es[p + 1].Title? {
        if p >= |head| + |brk| {
          assert es[p] == rest[p - |head| - |brk|];
          assert es[p + 1] == rest[p - |head| - |brk| + 1];
        } else if p == |head| {
          assert es[p + 1] == rest[0];
        }
      }
    }
  }
}
