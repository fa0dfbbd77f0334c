# Duke halal dining and Muslim-life calendar, in Dafny

The repository scrapes Duke's dining web pages. It collects halal meals per
restaurant and category, reads each meal's nutrition-facts dialog, adds
today's opening hours from the campus-hours page, and writes text, JSON and
PDF reports. A separate script turns the student groups' iCalendar feed
(RFC 5545) into a printable list of upcoming events.

This project models the deterministic part of that pipeline. Pages,
dialogs and feeds are given as strings and lists. An element lookup that
can fail is an `Option`. Python dictionaries are insertion-ordered lists of
pairs.

| file | module | models |
|---|---|---|
| `wrappers.dfy` | `Wrappers` | `Option` and `Result` |
| `text.dfy` | `Text` | ASCII character classes, `strip`, `in`, `find`, `split('\n')`, `lower` |
| `dicts.dfy` | `Dicts` | Python `dict` semantics: assignment keeps a key's position, and a dict comprehension is built from pairs |
| `stable_sort.dfy` | `StableSort` | Python's stable `sort`/`sorted` by an integer key, as a function and as an in-place array sort |
| `nutrition_label.dfy` | `NutritionLabel` | `scrape_nutrition_modal` of `src/nutri_scrape.py`: the serving block, the primary and secondary nutrient rows, the record |
| `dining_hours.dfy` | `DiningHours` | the name table and its inversion, the hours substitutions, the hours-grid walk of `get_dining_hours` and `src/test_get_timings.py` |
| `menu_walk.dfy` | `MenuWalk` | the walk over units, menus and menu rows in its three variants (`src/nutri_scrape.py`, `src/bot_scrape.py`, `scrape.py`), the non-empty filter, the text report, the JSON list and the PDF table/page-break layout |
| `restaurant_split.dfy` | `RestaurantSplit` | `src/nutri_split.py`: `sanitize_filename`, the per-restaurant files and index, the summary statistics |
| `event_calendar.dfy` | `EventCalendar` | `get_muslim_calendar.py`: VEVENT blocks, `find_field`, `clean_description`, the date-time parse and sort, the RSVP choice and the document layout |

Some behaviour of the code differs from its own comments and from what one
might expect. In each case the model follows the code:

- `src/nutri_scrape.py` reads each unit's status badge but never skips a
  closed unit. Only `src/bot_scrape.py` and `scrape.py` do (`MenuWalk.SkipsClosed`).
- `scrape.py` drops an item that has no category on both paths. The other
  two scrapers file such an item under "Uncategorized" on a menu that
  loads without menu links (`MenuWalk.Lenient`).
- `src/nutri_scrape.py` does not de-duplicate meals. The other two do
  (`MenuWalk.Dedupes`).
- `find_field` matches the field name anywhere in the block, not only at
  the start of a line. Its parameter segments `[^:]*` may cross line ends.
- The second "Serving Size" pattern (`src/nutri_scrape.py:159-162`) can
  match only where the first one fails. That happens only when the label
  ends the line, and then the second one fails too, so it never sets a
  value.
- On a non-`NA` token, `([\d.]+)(.*)` always matches, so the branch that
  keeps the raw token (`src/nutri_scrape.py:219-221`) never runs.
- `clean_description` also rewrites runs of three and then two dots
  (with surrounding whitespace) into a blank line (`get_muslim_calendar.py:27-28`).

## Model

| member | source | states |
|---|---|---|
| NutritionLabel.ParseDecimalAccepts | src/nutri_scrape.py:213-216 | `float()` on a string of digits and points succeeds exactly when it has at least one digit and at most one point |
| NutritionLabel.ParseShow | src/nutri_scrape.py:213-216 | a well-formed numeral written with its point reads back as itself |
| NutritionLabel.ParseDecimalValue | src/nutri_scrape.py:213-216 | the value `float()` reads is the one the text spells: the whole text when it has no point, and the numeral written with its point as the text itself otherwise |
| NutritionLabel.MatchRowSpec | src/nutri_scrape.py:200-201 | the row pattern matches exactly when the stripped text splits into a newline-free name, whitespace and an amount token (`NA`, or digits and points plus letters); the name is the shortest such |
| NutritionLabel.SplitIsLastRun | src/nutri_scrape.py:200 | every way of splitting a row uses its last run of whitespace |
| NutritionLabel.MatchRowShortest | src/nutri_scrape.py:200 | when the last word is a token, the name ending before the last whitespace run is a split and no split has a shorter name |
| NutritionLabel.MatchRowNone | src/nutri_scrape.py:238-244 | when the last word is not a token, or the name would be empty or hold a newline, no split exists and the row takes the fallback |
| NutritionLabel.ParseAmountSpec | src/nutri_scrape.py:207-221 | `NA`, and only `NA`, gives neither amount nor unit; otherwise the amount is the number the numeral spells (`25g` gives 25) exactly when `float()` accepts the numeral, else the numeral text; the unit is the trailing letters, or absent, and numeral plus unit give the token back |
| NutritionLabel.ParseDailyValueSpec | src/nutri_scrape.py:223-235 | the percent is present exactly when the right-hand text, with every `%` removed and stripped, is a decimal numeral, and it is the number that text spells (`32%` gives 32); the guards for an empty text and a bare `%` exclude nothing `float()` would accept |
| NutritionLabel.DropPercent | src/nutri_scrape.py:227 | no `%` remains and no other character is introduced |
| NutritionLabel.DropPercentKeeps | src/nutri_scrape.py:227 | the removal works piece by piece: a joined text gives the joined results, a `%` disappears and any other character stays |
| NutritionLabel.RowKeyIsInfix | src/nutri_scrape.py:200-244 | the key a row produces, matched or not, is a piece of its stripped left-hand text |
| NutritionLabel.BuildNutritionFacts | src/nutri_scrape.py:182-250 | the row loop builds, in order, the mapping of every readable row except "Include NA" rows |
| NutritionLabel.BuildSecondaryNutrients | src/nutri_scrape.py:253-320 | the secondary loop records every readable row whose key the primary mapping lacks |
| NutritionLabel.CollectedValid | src/nutri_scrape.py:236-244 | a table never holds a key twice |
| NutritionLabel.CollectedKeys | src/nutri_scrape.py:182-320 | a key is in a table exactly when some recorded row produces it |
| NutritionLabel.CollectedLastWins | src/nutri_scrape.py:236 | the value under a key is that of the last recorded row with that key |
| NutritionLabel.SecondaryDisjoint | src/nutri_scrape.py:266-316 | no secondary key is a primary key, for matched and fallback rows alike |
| NutritionLabel.PrimaryHasNoIncludeNA | src/nutri_scrape.py:195-196 | no primary key contains "Include NA" |
| NutritionLabel.FirstCountMatch | src/nutri_scrape.py:146 | the count pattern's leftmost match: it matches there and nowhere earlier |
| NutritionLabel.FirstContaining | src/nutri_scrape.py:144-149 | the first line naming "Servings per container"; no earlier line names it |
| NutritionLabel.LastLabeled | src/nutri_scrape.py:153-157 | the last line whose "Serving Size" label has text after it; no later line has one |
| NutritionLabel.FirstUnitLine | src/nutri_scrape.py:163-168 | the first unlabeled non-blank line that looks like a serving size; no earlier line does |
| NutritionLabel.ParseServingInfo | src/nutri_scrape.py:140-168 | the two line scans: the count comes from the first line naming it and no other; the size is the last labeled line's remainder, else the first unit line |
| NutritionLabel.ScanServings | src/nutri_scrape.py:143-149 | the first loop stops at the first line naming servings per container and reads the count from it alone |
| NutritionLabel.ScanServingSize | src/nutri_scrape.py:151-168 | the second loop, which visits every line, ends with the size the line-by-line specification gives |
| NutritionLabel.ServingSizeStep | src/nutri_scrape.py:152-168 | one more line: a labeled line overwrites, a unit line sets the size only while it is unset |
| NutritionLabel.TextOf | src/nutri_scrape.py:127-130 | a missing element gives no text; a present one its stripped text |
| NutritionLabel.ScrapeNutritionModal | src/nutri_scrape.py:118-369 | no dialog gives no record; otherwise each field is its element's stripped text or parse, both tables are valid dictionaries and share no key |
| NutritionLabel.ExampleTotalFat | src/nutri_scrape.py:199 | "Total Fat 25g" with "32%" gives name, number 25, unit g and percent 32 |
| NutritionLabel.ExampleTransFat | src/nutri_scrape.py:199-209 | "Trans Fat NA" gives no amount and no unit |
| NutritionLabel.ExampleSingleWord | src/nutri_scrape.py:238-244 | a single-word row is recorded under itself with nothing known |
| NutritionLabel.ExampleGluedLabel | src/nutri_scrape.py:159 | "Serving Size1 lb Portion (453g)" still yields its size |
| NutritionLabel.ExampleBag | src/nutri_scrape.py:166 | "1 Bag" looks like a serving size: the unit needs no word boundary before it |
| DiningHours.HoursFor | src/bot_scrape.py:301 | the hours stored for a restaurant, or "Hours not available" |
| DiningHours.NameTableDistinct | src/nutri_scrape.py:16-44 | the name table lists no campus name twice and no menu-site name twice, so Dicts.InvertRoundTrip applies to it and its inversion at src/nutri_scrape.py:47 |
| DiningHours.DisplayName | src/test_get_timings.py:51 | the table's entry for a name, or the name itself when it is missing |
| DiningHours.DisplayNameSpec | src/nutri_scrape.py:77 | for a table without repeated names, such as the source's: a menu-site name that leads back to the campus name through the inverted table, or the campus name itself when the table lacks it |
| DiningHours.InsertNoBoundary | src/test_get_timings.py:57-58 | where a substitution's pattern never matches, the text is unchanged |
| DiningHours.InsertClears | src/test_get_timings.py:57-58 | after a substitution, no `am`/`pm` is followed by what its lookahead asks |
| DiningHours.FormatHoursClears | src/nutri_scrape.py:73-74 | formatted hours hold no `am`/`pm` followed by a digit, `Noon` or `Midnight` |
| DiningHours.FormatHoursIdempotent | src/test_get_timings.py:57-58 | formatting twice equals formatting once |
| DiningHours.FormatHoursUnchanged | src/test_get_timings.py:54-58 | hours with no run-together times come out unchanged |
| DiningHours.NoNoonOrMidnight | src/test_get_timings.py:58 | a text with no `N` or `M` has no `Noon`/`Midnight` boundary |
| DiningHours.ExampleRunTogether | src/test_get_timings.py:55 | "7 am9 am" becomes "7 am, 9 am" |
| DiningHours.Readings | src/test_get_timings.py:45-49 | at most one reading per row: rows without a header or first cell give none |
| DiningHours.GetDiningHours | src/nutri_scrape.py:62-78 | the grid after its header row becomes a valid dictionary from display name to formatted hours; a later row with the same name wins |
| DiningHours.TimingLines | src/test_get_timings.py:45-60 | one `name: hours` line per usable row after the header row, in order |
| MenuWalk.MealName | src/bot_scrape.py:204-206 | a meal name is one line and does not start with whitespace |
| MenuWalk.HasHalalImageIff | src/nutri_scrape.py:451-459 | an item is halal exactly when an image before the first one without `alt` is marked halal |
| MenuWalk.ScanImages | src/nutri_scrape.py:451-459 | the image loop with its early exit computes that flag |
| MenuWalk.WalkRows | src/bot_scrape.py:178-209 | the row loop, which updates the current category and the categories in place, ends in the state the row-by-row specification gives |
| MenuWalk.OpenedKeeps | src/bot_scrape.py:189-190 | opening a category never resets an existing list |
| MenuWalk.AppendedKeeps | src/bot_scrape.py:208-209 | afterwards the meal is listed under the category, at the end of its list unless a de-duplicating scraper finds it there already; other categories are unchanged, no meal is lost and no duplicate appears where the scraper de-duplicates |
| MenuWalk.PreparedKeeps | src/bot_scrape.py:197-201 | before an item, a set category stays; with none set, a lenient walk makes "Uncategorized" current (opening it) and a strict one changes nothing, so a category is set exactly when one was or the walk is lenient |
| MenuWalk.ItemKeeps | src/bot_scrape.py:197-211 | an item row with a meal lists it under the category current once the row is prepared; a strict walk with no category leaves the walk unchanged; the category stays current and no other meal is added |
| MenuWalk.GroupKeeps | src/bot_scrape.py:184-195 | a group row makes its stripped heading current and opens it when not empty; an unreadable heading makes "Uncategorized" current where lenient and clears the category where strict; no meal is added |
| MenuWalk.WalkKeeps | scrape.py:86-112 | every non-empty heading of the rows is a category of the result and every item's meal is listed under the category current at its row; lists are only extended, only headings and (where lenient) "Uncategorized" are opened, only item meals are listed, and no duplicates appear where the scraper de-duplicates |
| MenuWalk.Visit | src/bot_scrape.py:240-272 | one menu's rows are walked into the restaurant's categories |
| MenuWalk.VisitMenus | src/bot_scrape.py:224-286 | the menu-link loop visits menus up to the first one that fails |
| MenuWalk.ScrapeUnits | src/bot_scrape.py:138-286 | the unit loop ends in the state the unit-by-unit specification gives |
| MenuWalk.PutKeeps | src/bot_scrape.py:172-173 | storing a restaurant's extended categories keeps the data well formed |
| MenuWalk.VisitedMenusKeeps | src/bot_scrape.py:224-286 | visiting menus keeps the data well formed and loses nothing |
| MenuWalk.VisitedUnitsKeeps | src/nutri_scrape.py:382-613 | the unit loop keeps the data well formed and loses nothing |
| MenuWalk.ScrapedWellFormed | src/bot_scrape.py:134-286 | after scraping, restaurant names are stripped, every category is a non-empty stripped name, every meal name is one non-empty line, and the de-duplicating scrapers list no meal twice in a category |
| MenuWalk.OpenUnits | src/bot_scrape.py:140-143 | the open units are exactly the units whose badge names "open" |
| MenuWalk.ClosedUnitsIgnored | scrape.py:48-51 | in the scrapers that check the badge, closed units contribute nothing |
| MenuWalk.MenuPathAgrees | scrape.py:149-175 | on a menu reached through a link, `scrape.py` and `src/bot_scrape.py` walk the rows alike |
| MenuWalk.NonEmptyMembers | src/bot_scrape.py:293-296 | the filter keeps exactly the restaurants with a meal |
| MenuWalk.FilledMembers | src/nutri_scrape.py:639-646 | the categories kept are exactly those with a meal |
| MenuWalk.NonEmptyKeys | scrape.py:196-199 | a restaurant survives the filter exactly when one of its categories has a meal, with its categories unchanged |
| MenuWalk.WriteMeals | src/bot_scrape.py:307-308 | one `    - meal` line per meal, in order |
| MenuWalk.WriteCategories | src/bot_scrape.py:303-308 | a heading line and the meal lines for each non-empty category |
| MenuWalk.WriteReport | src/bot_scrape.py:298-310 | the report over the filtered data: a header per restaurant, then its categories, then a blank line |
| MenuWalk.BulletsOfReport | scrape.py:202-211 | the meal lines of the report are exactly the meals, in order |
| MenuWalk.NonEmptyMealLines | src/bot_scrape.py:293-296 | the filter removes no meal |
| MenuWalk.ReportListsEveryMeal | src/bot_scrape.py:293-310 | the report of scraped data lists every scraped meal, in order, and nothing else as a meal |
| MenuWalk.CategoryEntries | src/nutri_scrape.py:639-646 | the JSON category loop gives the specified entries |
| MenuWalk.BuildJson | src/nutri_scrape.py:626-648 | one JSON entry per restaurant that has a meal |
| MenuWalk.CategoriesJsonFilled | src/nutri_scrape.py:639-646 | the JSON categories are the categories with a meal, in order, with their meals |
| MenuWalk.JsonShape | src/nutri_scrape.py:626-648 | each entry has its restaurant's name, hours (or the default) and only categories with meals |
| MenuWalk.TableDataRows | scrape.py:227 | a table is its category row followed by one row per meal, in order |
| MenuWalk.TableElements | scrape.py:225-233 | the per-category loop gives a table and a gap per non-empty category |
| MenuWalk.BuildPdfElements | scrape.py:220-245 | the restaurant loop gives the specified element list |
| MenuWalk.TablesHaveNoBreak | scrape.py:225-233 | category tables hold no page break and no title |
| MenuWalk.PageBreaksBetween | scrape.py:244-245 | n restaurants give n-1 page breaks, none last, each followed by a title |
| RestaurantSplit.DropSpecial | src/nutri_split.py:15 | only word characters, whitespace and `-` remain, and a text of those is unchanged |
| RestaurantSplit.DropSpecialKeeps | src/nutri_split.py:15 | the removal works piece by piece: a joined text gives the joined results, a word character, whitespace or `-` stays and any other character goes |
| RestaurantSplit.CollapseFrom | src/nutri_split.py:16 | no whitespace or `-` remains and nothing but `_` is introduced |
| RestaurantSplit.CollapseSpec | src/nutri_split.py:16 | a whole run of whitespace and `-` becomes one `_` before the rest's result, and any other character stays in place |
| RestaurantSplit.SanitizeFilenameSafe | src/nutri_split.py:12-18 | a sanitized name is lower-case letters, digits and `_` with no `_` at either end, and sanitizing it again changes nothing |
| RestaurantSplit.SafeIsFixed | src/nutri_split.py:12-18 | a safe name goes through every step unchanged |
| RestaurantSplit.HalalAtMostTotal | src/nutri_split.py:60-64 | a restaurant never has more halal items than items |
| RestaurantSplit.EntryOf | src/nutri_split.py:47-80 | an index entry has a safe name and no more halal items than items |
| RestaurantSplit.SplitRestaurants | src/nutri_split.py:38-80 | the loop writes one file per restaurant in order, counts every restaurant, and builds the index from one assignment per restaurant |
| RestaurantSplit.IndexShape | src/nutri_split.py:73-80 | the index is keyed by name: each name once, the last restaurant of a name wins, never more entries than restaurants |
| RestaurantSplit.WithHalal | src/nutri_split.py:113 | the restaurants with halal items are at most all restaurants |
| RestaurantSplit.Ranked | src/nutri_split.py:115-126 | one `(name, count)` pair per index entry, in index order |
| RestaurantSplit.TopTen | src/nutri_split.py:115-126 | at most ten entries, a prefix of the stable descending sort |
| RestaurantSplit.SummaryStats | src/nutri_split.py:107-127 | an empty index fails (the average divides by zero); otherwise the statistics, with halal restaurants at most all restaurants |
| RestaurantSplit.TopTenDescending | src/nutri_split.py:115-118 | a top list is non-increasing, and no pair left out beats one kept |
| RestaurantSplit.TopTenMembers | src/nutri_split.py:115-126 | every entry of a top list is a ranked pair |
| RestaurantSplit.TopTenStable | src/nutri_split.py:115-118 | pairs with equal counts keep their index order |
| EventCalendar.NextSpanFound | get_muslim_calendar.py:17 | the next block: after the leftmost begin marker, up to the first end marker after it; none exactly when no begin marker is followed by an end marker |
| EventCalendar.SpanIsNext | get_muslim_calendar.py:17 | block k is exactly the next block found from where the previous block ends, so the blocks are the successive lazy matches |
| EventCalendar.SpansEnclosed | get_muslim_calendar.py:17 | each extracted block lies strictly between a begin marker and the first end marker after it |
| EventCalendar.SpansInOrder | get_muslim_calendar.py:17 | each block starts at the first begin marker after the previous block's end, so blocks do not overlap and come in feed order |
| EventCalendar.SpansComplete | get_muslim_calendar.py:17 | after the last block, no further begin/end pair exists: no block is missed |
| EventCalendar.EventBlocks | get_muslim_calendar.py:17 | one block per extracted span |
| EventCalendar.FieldMatch | get_muslim_calendar.py:21 | the leftmost position where the field name, its parameters and `:` match |
| EventCalendar.FindField | get_muslim_calendar.py:20-22 | the value is one stripped line, and `""` when the field does not occur |
| EventCalendar.FindFieldLeftmost | get_muslim_calendar.py:21-22 | the value is read at the leftmost match |
| EventCalendar.FindFieldSimpleLine | get_muslim_calendar.py:20-22 | a line `NAME:value` gives back its value |
| EventCalendar.CutAtRule | get_muslim_calendar.py:25 | a prefix of the text with no `---`, ending at the first `---` if there is one |
| EventCalendar.UnescapeComplete | get_muslim_calendar.py:26 | no backslash-n pair is left |
| EventCalendar.UnescapeSpec | get_muslim_calendar.py:26 | the text before the first `\n` escape stays, the escape becomes one line end and the rest is treated alike; a text with no escape is unchanged |
| EventCalendar.EllipsesNoDoublePeriod | get_muslim_calendar.py:28 | after the two-dot pass, no two periods are adjacent |
| EventCalendar.EllipsesKeeps | get_muslim_calendar.py:27-28 | text before the first match is copied, the match becomes a blank line and the scan resumes where it ends; with no match left the rest is copied |
| EventCalendar.CollapseNewlines | get_muslim_calendar.py:29 | no two adjacent newlines remain, and the first character stays |
| EventCalendar.CollapseNewlinesSpec | get_muslim_calendar.py:29 | a whole run of line ends becomes one line end before the rest's result, and any other character stays in place |
| EventCalendar.CleanDescription | get_muslim_calendar.py:24-30 | the cleaned description is stripped and has no two adjacent newlines |
| EventCalendar.CleanDescriptionFixed | get_muslim_calendar.py:24-30 | a description that is already clean (stripped, no `---`, no `\n` escape, no two line ends in a row, no two periods with only whitespace between) comes out unchanged |
| EventCalendar.ExampleCleanDescription | get_muslim_calendar.py:24-30 | the escaped text `a\nb...c---d` is cut at the rule, unescaped, and its ellipsis becomes a line break: the lines `a`, `b`, `c` |
| EventCalendar.ParseEventBlock | get_muslim_calendar.py:32-40 | all six fields are present, each one stripped line |
| EventCalendar.Events | get_muslim_calendar.py:56 | one event per block, in order |
| EventCalendar.ParseDateTime | get_muslim_calendar.py:49-53 | a parsed instant is a real date-time and came from the 16-character form |
| EventCalendar.ParseRender | get_muslim_calendar.py:49-53 | every valid instant, written in the feed's form, parses back to itself |
| EventCalendar.RenderParse | get_muslim_calendar.py:49-53 | a canonical string that parses is exactly the rendering of what it parses to |
| EventCalendar.PackedOrder | get_muslim_calendar.py:57 | packing the fields into a number keeps their lexicographic order |
| EventCalendar.KeyBelowMax | get_muslim_calendar.py:53 | every valid instant's key is below the maximum's |
| EventCalendar.KeyOrder | get_muslim_calendar.py:57 | the sort key orders instants chronologically, with the maximum last, and is injective |
| EventCalendar.LoadEvents | get_muslim_calendar.py:56-57 | the in-place sort leaves the feed's events in stable order of start key |
| EventCalendar.SortedByStart | get_muslim_calendar.py:57 | after the sort no event starts after a later one, and unparseable starts come last |
| EventCalendar.SortKeepsFeedOrder | get_muslim_calendar.py:57 | the sort is a permutation and keeps feed order among equal starts |
| EventCalendar.FormatDateTime | get_muslim_calendar.py:42-47 | a start that does not parse is shown verbatim; one that parses is shown as its instant |
| EventCalendar.FormatRendered | get_muslim_calendar.py:42-47 | a valid instant written in the feed's form is formatted, not shown verbatim |
| EventCalendar.FirstRsvp | get_muslim_calendar.py:84 | the leftmost RSVP link in the description, if any |
| EventCalendar.RsvpMatchShape | get_muslim_calendar.py:84 | a match starts with `http`, contains the RSVP path, ends in a digit and occurs in the text |
| EventCalendar.RsvpLink | get_muslim_calendar.py:84-85 | the text of the leftmost RSVP match in the description, taking every digit of its id, when there is one (a link that starts with `http`, holds the RSVP path and ends in a digit); otherwise the URL field |
| EventCalendar.Html | get_muslim_calendar.py:89 | markup is never shorter than the text, and empty exactly when the text is |
| EventCalendar.HtmlRoundTrip | get_muslim_calendar.py:89 | reading the escaped markup back gives the description |
| EventCalendar.AppendEvent | get_muslim_calendar.py:77-122 | one event's items are appended to the story |
| EventCalendar.BuildStory | get_muslim_calendar.py:72-122 | the loop builds the header followed by every event's items, in order |
| EventCalendar.CalendarStory | get_muslim_calendar.py:17-122 | the document over the sorted events of the feed |
| EventCalendar.StoryTitles | get_muslim_calendar.py:74-77 | the titles of the document are the events' summaries, in order |
| EventCalendar.RsvpRow | get_muslim_calendar.py:96-97 | an RSVP row appears exactly when the link is non-empty, and holds the link |
| EventCalendar.DescriptionShown | get_muslim_calendar.py:113-115 | a description appears exactly when the cleaned description is non-empty |
| Dicts.PutGet | src/nutri_split.py:73 | after an assignment the key reads the new value and other keys are unchanged |
| Dicts.FromPairsGet | src/nutri_scrape.py:78 | a dictionary filled by assignments reads each key's last assigned value |
| Dicts.InvertRoundTrip | src/nutri_scrape.py:47 | a dictionary with distinct values and its inversion lead back to each other |
| StableSort.SortByKeySorted | src/nutri_split.py:115-118 | the sort's result is ordered by key |
| StableSort.SortByKeyStable | get_muslim_calendar.py:57 | among equal keys, input order is kept |
| StableSort.SortByKeyPermutes | get_muslim_calendar.py:57 | the sort is a permutation |
| StableSort.SortInPlace | get_muslim_calendar.py:57 | the in-place insertion sort leaves the array as the stable sort of its old contents |
| Text.SplitLinesJoin | src/nutri_scrape.py:141 | joining the parts of `split('\n')` with newlines gives the text back |

## Left out

- Browser control with Selenium (clicks, waits, scrolling, closing dialogs) is not modelled. Pages, menus, rows and dialogs are inputs, and a failed lookup is `None`.
- HTTP requests and HTML parsing with BeautifulSoup are not modelled. The campus-hours grid and the iCalendar text are inputs.
- File output, JSON reading and writing, and directory handling are not modelled. The model builds the dictionaries and lists that get written.
- PDF styling and `doc.build` are not modelled, for either PDF script. Only the element sequence (titles, tables, gaps, page breaks) of `scrape.py` and the calendar document's item sequence are kept.
- The PDF of `src/bot_scrape.py` (lines 313-386) is not modelled. It repeats the layout of `scrape.py` with other styles.
- `datetime.now()` and `today()` timestamps are not modelled. They are nondeterministic.
- Exceptions other than a missing element are not modelled, nor are the error prints. The model assumes no such exception (for example `.strip()` on a missing text or a stale element); in the program one raised in the menu loop ends that restaurant's menu loop (`except Exception: break`), and one raised elsewhere in a unit, such as on the automatic path, abandons the unit (the outer `except Exception: continue`), so the remaining rows and menus go unrecorded.
- NutritionLabel.DropPercent: its own contract says what is removed; what it keeps is stated by NutritionLabel.DropPercentKeeps.
- RestaurantSplit.DropSpecial: its own contract says what is removed; what it keeps is stated by RestaurantSplit.DropSpecialKeeps.
- EventCalendar.UnescapeComplete: states only that no escape is left; what the pass keeps and writes is stated by EventCalendar.UnescapeSpec.
- RestaurantSplit.CollapseFrom: its own contract says what is removed; what it writes for each run and each other character is stated by RestaurantSplit.CollapseSpec.
- EventCalendar.EllipsesNoDoublePeriod: states only that no two periods are adjacent after the two-dot pass; what the pass keeps and writes is stated by EventCalendar.EllipsesKeeps.
- EventCalendar.CollapseNewlines: its own contract says what is removed; what it keeps is stated by EventCalendar.CollapseNewlinesSpec.
- EventCalendar.CleanDescription: its own contract gives the shape of the result; the result is tied to the raw text stage by stage (CutAtRule, UnescapeSpec, EllipsesKeeps, CollapseNewlinesSpec) and by CleanDescriptionFixed, not by one end-to-end equation. That cleaning twice equals cleaning once is not proved.
- Character classes are ASCII only: `\w`, `\d`, `\s`, `isspace` and `lower()` do not see non-ASCII letters, digits or spaces.
- NutritionLabel.ParseDecimal: `float()` is modelled on unsigned decimal numerals only. Signs, exponents, `inf`, `nan`, underscores and inner whitespace in the daily-value text count as rejected.
- RestaurantSplit.SummaryStats: the average is kept as an unevaluated quotient, without `round(..., 1)`.
- EventCalendar.ParseDateTime: only the fixed-width 16-character form is read. `strptime` also accepts one-digit fields in some positions (e.g. `2025101T...`), and those parse to `Max` here.
- EventCalendar.FormatDateTime: the `strftime` text is abstract. A parsed instant is shown as the instant, not as a weekday and month name.
- EventCalendar.FindField: iCalendar line folding (section 3.1 of RFC 5545) is not undone, just as the script does not undo it. Only the `\n` escape of section 3.3.11 of RFC 5545 is decoded.
- MenuWalk.ScrapeUnits: a restaurant's name, badge and menu links are given, not clicked, and `nutri_scrape`'s nutrition record of an item is an input produced by `NutritionLabel.ScrapeNutritionModal`.
