# Ministry dashboard aggregation, modelled in Dafny

The ministry dashboard reads a spreadsheet of churches and visits. Each of
its cards then derives counts and lists from the rows:

- **Sheet service.** The sheet service turns parsed CSV rows into
  header-keyed objects.
- **Stage Distribution.** The stage card counts items per pipeline stage.
- **Church list.** The church list keeps one entry per visited church
  name, sorts them and filters them.
- **Visit Timeline.** The timeline lists the visits newest first. It shows
  four counters and pages through the list five visits at a time.
- **Debug card.** The debug card groups the visits by church name and
  reconciles the counts.
- **Summary chart.** The summary chart buckets dated items by month for a
  year.
- **Contact card.** The contact card classifies each contact. It computes
  quick stats and formats status labels.
- **Church map.** The map filters churches by a search text, lays markers
  out on a grid and picks a colour per stage.

This project models each of these computations over a sequence of rows:

- **Spreadsheet values.** A value is `Cells.Cell`: a string, a boolean, an
  integer, `undefined` (column absent) or `null`.
- **Rows.** A row is a `map<string, Cell>`.
- **JavaScript coercions.** Truthiness, the `String(x)` behind property
  keys and template literals, and `includes` are written out in `Cells`
  and `Text`. So are the `=== true || === 'TRUE'` visited test and the
  ASCII case mapping.
- **Dates.** `new Date(...)` is a parameter `parse: Cell -> Option<Moment>`.
  `None` is an Invalid Date. `Moment` carries the millisecond time value
  on the local clock, with the year and the month the host reports for it.
- **Current time.** The current instant is a parameter.
- **Accumulator loops.** The reduces and `forEach` loops that update an
  accumulator in place are methods with loop invariants. Examples are the
  stage counts, the month counts, the two `uniqueChurches` reduces, the
  grouping reduce, the letter set and the header zipping.
- **Each method's specification.** Each such method is proved against a
  specification: a reference function or a set of keys and the facts about
  each stored entry.
- **Pure code.** Pure `filter`/`map`/`sort` chains are functions.
- **Sorting.** `sort` with a comparator is an insertion sort. Its result is
  proved to be a permutation that is ordered by the comparator.
- **Paging state.** The paging state of the timeline is a class.

Where the system's specification and its code disagree, the model follows the code:

- **Visited test.** The test is exact: only the boolean `true` and the
  string `"TRUE"`. `"true"`, `" TRUE "` and `"Yes"` do not count
  (`Cells.VisitedValueIsExact`).
- **No normalisation.** Church names and addresses are neither trimmed nor
  lower-cased in any key.
- **Two deduplications.** The church list keys on the exact name. The
  timeline keys on `name|address`. The two unique-church counts therefore
  differ in general.
- **Monthly chart.** The chart does not read the visited flag
  (`Summary.OnlyVisitDateMatters`).
- **"Yes" and contact status.** `"Yes"` is meaningful only for the contact
  status. A row the other cards count as visited is never "responsive"
  (`ContactManagement.VisitedIsNeverResponsive`).
- **Stage colours.** The map's colours are keyed on Prospect, Contacted,
  Visited, Follow-up and Engaged, not on the five stages of the
  distribution card. Three of those five stages therefore always get the
  fallback colour (`ChurchMap.DistributionStagesWithoutColour`).
- **This week.** The week does not start at Sunday midnight (see Findings).

## Model

| member | source | states |
|---|---|---|
| Sheets.ZipRows | src/services/sheets.js:22-32 | row 0 is the header; one object per later row, in order, and object k is row k+1 zipped with the header; no rows or only a header give no objects |
| Sheets.ZipRow | src/services/sheets.js:27-31 | an object's keys are exactly the header names, as property keys, duplicates merged |
| Sheets.ZipRowRightmost | src/services/sheets.js:28-30 | the value under a header is the cell of that header's rightmost column; a cell missing from a short row is `undefined` |
| Cells.VisitedValueIsExact | src/components/dashboard/VisitTimeline.jsx:20 | only `true` and `"TRUE"` count as visited; other spellings, `"Yes"`, 1, `false`, empty and absent do not |
| Cells.VisitedValueIsTruthy | src/components/dashboard/ChurchList.jsx:12 | a visited value is truthy |
| Cells.CapitalisedKey | src/components/dashboard/StageDistribution.jsx:9 | a capitalised property key is produced only by that exact string, never by a number, boolean or missing value |
| StageDistribution.CountStages | src/components/dashboard/StageDistribution.jsx:7-11 | the `counts` object holds exactly the keys of truthy stages, each with the number of items whose stage renders as that key |
| StageDistribution.ProcessData | src/components/dashboard/StageDistribution.jsx:5-18 | the buckets equal the reference distribution: the five stages in fixed order with their counts and rounded rates |
| StageDistribution.KeyCountIsStageCount | src/components/dashboard/StageDistribution.jsx:7-15 | for a listed stage name, the accumulator count is the number of items whose Stage is exactly that string |
| StageDistribution.BucketMeaning | src/components/dashboard/StageDistribution.jsx:13-17 | five buckets in the order Prospect, Visited, Navigation, Meeting Scheduled, Donated; bucket j counts the items whose Stage is exactly stage j |
| StageDistribution.BucketTotalIsListedCount | src/components/dashboard/StageDistribution.jsx:13-17 | the five counts sum to the number of items with a listed stage |
| StageDistribution.BucketsBounded | src/components/dashboard/StageDistribution.jsx:9-17 | the counts sum to at most the number of items, and to strictly fewer once an item's stage is missing, empty or unlisted |
| StageDistribution.EmptyDistribution | src/components/dashboard/StageDistribution.jsx:5-16 | with no items every count and every rate is 0 |
| StageDistribution.RoundPercent | src/components/dashboard/StageDistribution.jsx:16 | 0 with no items; otherwise the rate r is 100·count/n rounded half up: 2n·r ≤ 200·count + n < 2n·(r+1) |
| StageDistribution.RateBounds | src/components/dashboard/StageDistribution.jsx:16 | a rate lies in 0..100, is 100 when every item has the stage, and 100 implies 200·count ≥ 199·n |
| StageDistribution.RateHundredWithoutAll | src/components/dashboard/StageDistribution.jsx:16 | 199 of 200 items also rounds to 100, so 100 does not mean every item |
| StageDistribution.TotalChurches | src/components/dashboard/StageDistribution.jsx:37 | the total is the items with a listed stage plus those without one: every item |
| StageDistribution.DistributionOrderIndependent | src/components/dashboard/StageDistribution.jsx:7-11 | reordering the items does not change any bucket |
| Summary.MonthCounts | src/components/dashboard/Summary.jsx:8-15 | the `counts` object holds exactly the months 0..11 that have an item dated in the year, each with the number of such items |
| Summary.ProcessData | src/components/dashboard/Summary.jsx:6-23 | the series equals the reference twelve monthly totals |
| Summary.SeriesShape | src/components/dashboard/Summary.jsx:19-22 | twelve points, January first; point i counts the items dated in month i of the year |
| Summary.PrefixTotal | src/components/dashboard/Summary.jsx:8-22 | the first n points sum to the items dated in the year's first n months |
| Summary.YearTotal | src/components/dashboard/Summary.jsx:8-22 | the twelve counts sum to the items dated in the year, at most all items |
| Summary.UndatedNeverCounted | src/components/dashboard/Summary.jsx:9-10 | an item whose date does not parse is in no month |
| Summary.EmptyYear | src/components/dashboard/Summary.jsx:10-21 | a year with no dated item gives twelve zeros |
| Summary.TwoYearsBounded | src/components/dashboard/Summary.jsx:25-26 | the 2024 and 2025 series together sum to at most the number of items |
| Summary.OnlyVisitDateMatters | src/components/dashboard/Summary.jsx:8-15 | rows that agree on Visit Date give the same series, so the visited flag plays no part |
| ChurchList.UniqueChurches | src/components/dashboard/ChurchList.jsx:11-21 | keys are exactly the names of visited, named items; each entry is such an input item filed under its own name; no same-name item is strictly later than the kept entry (a missing stored date reads as 1900-01-01); the entry under each name is the per-name reference `KeptFor`, which is the one position `KeptAt` describes: the name's first item when no namesake is later than it, otherwise the earliest namesake that is later than the first item and than which no namesake is later; `order`, the list `Object.values` follows, is the names in order of first occurrence |
| ChurchList.Supersedes | src/components/dashboard/ChurchList.jsx:15 | replacing takes the item's own valid date strictly after the stored entry's valid date, and an item never replaces itself |
| ChurchList.UndatedEntryYields | src/components/dashboard/ChurchList.jsx:15 | a stored entry with a falsy Visit Date is replaced by an item iff the item's Visit Date is truthy and parses to a date later than 1900-01-01 |
| ChurchList.KeptForIndex | src/components/dashboard/ChurchList.jsx:13-19 | once a name's first item is seen, the reference stores the item at a position satisfying `KeptAt` |
| ChurchList.KeptAtUnique | src/components/dashboard/ChurchList.jsx:13-19 | `KeptAt` holds of one position only, so the kept entry is determined, ties going to the earliest item |
| ChurchList.KeptEarliestOnTies | src/components/dashboard/ChurchList.jsx:15 | the strict comparison keeps the earliest of several namesakes tied on the latest date |
| Seqs.FirstKeysMembers | src/components/dashboard/ChurchList.jsx:21 | a name is listed in the insertion order iff some visited, named item has it |
| Seqs.FirstKeysDistinct | src/components/dashboard/ChurchList.jsx:21 | no name is listed twice |
| Seqs.FirstKeysOrdered | src/components/dashboard/ChurchList.jsx:21 | of two names, the one whose first item comes earlier is listed earlier |
| ChurchList.ValuesHaveDistinctNames | src/components/dashboard/ChurchList.jsx:13-21 | no two kept entries share a name |
| ChurchList.NameOrderIsTotalPreorder | src/components/dashboard/ChurchList.jsx:22 | the name comparator is total and transitive |
| ChurchList.SortedChurches | src/components/dashboard/ChurchList.jsx:21-22 | a permutation of the kept entries, ordered by name |
| ChurchList.SortedChurchesAscending | src/components/dashboard/ChurchList.jsx:21-22 | with distinct names the sorted list is strictly ascending by name |
| ChurchList.FilteredChurches | src/components/dashboard/ChurchList.jsx:24-30 | an entry is shown iff its name or address contains the search term ignoring case, and no letter is selected or its upper-cased first character is the letter; as many entries are shown as pass the filter, and they keep their relative order (an increasing index map into the input), so a list sorted by name stays sorted |
| Seqs.FilterIndices | src/components/dashboard/ChurchList.jsx:24 | each element `filter` keeps comes from an increasing position of the input |
| Seqs.FilterKeepsOrder | src/components/dashboard/ChurchList.jsx:21-24 | filtering a list ordered by a comparator leaves it ordered by that comparator |
| ChurchList.NoFilterShowsAll | src/components/dashboard/ChurchList.jsx:24-30 | an empty search with no letter shows the whole sorted list |
| ChurchList.LetterOrderIsTotalPreorder | src/components/dashboard/ChurchList.jsx:39 | the default string order is total and transitive |
| ChurchList.AvailableLetters | src/components/dashboard/ChurchList.jsx:32-40 | the letters are strictly ascending (sorted, no repeats), and a letter is offered iff some named entry starts with it after upper-casing |
| ChurchList.OfferedLetterSelectsSomething | src/components/dashboard/ChurchList.jsx:27-36 | with an empty search, selecting an offered letter keeps every entry with that letter |
| VisitTimeline.NewestFirstIsTotalPreorder | src/components/dashboard/VisitTimeline.jsx:28 | newest-first, with undated visits last, is total and transitive |
| VisitTimeline.Visits | src/components/dashboard/VisitTimeline.jsx:19-28 | a permutation of the visited items' records; dated visits are non-increasing by date, and every undated visit comes after them |
| VisitTimeline.VisitsAreVisitedItems | src/components/dashboard/VisitTimeline.jsx:19-27 | a record is listed iff some visited item maps to it |
| VisitTimeline.TotalVisits | src/components/dashboard/VisitTimeline.jsx:55 | the total is the number of items whose Visit? is true or "TRUE" |
| VisitTimeline.AllConfirmed | src/components/dashboard/VisitTimeline.jsx:26 | every record is confirmed |
| VisitTimeline.UniqueChurches | src/components/dashboard/VisitTimeline.jsx:31-39 | keys are exactly the `name|address` keys of visited, named items; each entry has its own key; the first item per key is the one kept |
| VisitTimeline.UniqueChurchCount | src/components/dashboard/VisitTimeline.jsx:40 | the count is the number of distinct keys |
| VisitTimeline.UniqueChurchesBounded | src/components/dashboard/VisitTimeline.jsx:31-40 | there are never more unique churches than visits |
| VisitTimeline.SameChurchKeys | src/components/dashboard/VisitTimeline.jsx:34 | for one name, two items share a key iff their address parts agree |
| VisitTimeline.MissingAddressesShareKey | src/components/dashboard/VisitTimeline.jsx:34 | same-name items with a missing or empty address share one key |
| VisitTimeline.DifferentAddressesDifferentKeys | src/components/dashboard/VisitTimeline.jsx:34 | the same name with two different addresses gives two keys |
| VisitTimeline.KeyCollisions | src/components/dashboard/VisitTimeline.jsx:34 | a '\|' in a name or address, or an address reading "no-address", makes different items collide |
| VisitTimeline.UpcomingVisits | src/components/dashboard/VisitTimeline.jsx:47 | at most the number of visits |
| VisitTimeline.UndatedNeverUpcoming | src/components/dashboard/VisitTimeline.jsx:47 | undated visits are never upcoming |
| VisitTimeline.UpcomingShrinks | src/components/dashboard/VisitTimeline.jsx:47 | a later clock never gives more upcoming visits |
| Dates.Weekday | src/components/dashboard/VisitTimeline.jsx:51 | the day of the week lies in 0..6 |
| Dates.WeekdayAddDays | src/components/dashboard/VisitTimeline.jsx:51-52 | moving k days moves the weekday by k modulo 7, keeping the time of day |
| VisitTimeline.WeekBounds | src/components/dashboard/VisitTimeline.jsx:51-52 | the start is a Sunday at now's time of day no later than now, within a week of it; the end is the Saturday six days later |
| VisitTimeline.ThisWeekVisits | src/components/dashboard/VisitTimeline.jsx:48-54 | at most the number of visits |
| VisitTimeline.ThisWeekIncludesNow | src/components/dashboard/VisitTimeline.jsx:48-54 | a visit dated at the present moment is counted |
| VisitTimeline.ThisWeekMissesSundayMidnight | src/components/dashboard/VisitTimeline.jsx:51-53 | a visit at midnight this Sunday is not counted on the Wednesday noon after it, while the calendar-week count includes it |
| VisitTimeline.CalendarWeekBounds | src/components/dashboard/VisitTimeline.jsx:51-53 | the intended bounds run from Sunday 00:00 to the last millisecond of Saturday and contain now |
| VisitTimeline.SameWeekIffInBounds | src/components/dashboard/VisitTimeline.jsx:48-54 | a time lies within the intended bounds iff it has now's week number |
| VisitTimeline.ThisWeekVisitsIntended | src/components/dashboard/VisitTimeline.jsx:48-54 | at most the number of visits |
| VisitTimeline.ThisWeekIntendedMeaning | src/components/dashboard/VisitTimeline.jsx:48-54 | the corrected count is exactly the visits dated in now's Sunday-to-Saturday week |
| VisitTimeline.ThisWeekWithinIntended | src/components/dashboard/VisitTimeline.jsx:51-53 | the week as written lies inside the calendar week, so it never counts more |
| VisitTimeline.TimelinePager.constructor | src/components/dashboard/VisitTimeline.jsx:9 | five visits are shown to start with |
| VisitTimeline.TimelinePager.ViewMore | src/components/dashboard/VisitTimeline.jsx:133 | five more are shown, and the count stays a positive multiple of five |
| VisitTimeline.TimelinePager.ShowLess | src/components/dashboard/VisitTimeline.jsx:142 | back to five, and "Show Less" is no longer offered |
| VisitTimeline.TimelinePager.Shown | src/components/dashboard/VisitTimeline.jsx:92 | the first min(visibleVisits, length) visits; the list is cut short iff "View More" is offered |
| DebugVisits.VisitTimelineCount | src/components/dashboard/DebugVisits.jsx:6-8 | at most the number of items |
| DebugVisits.SameAsTimelineTotal | src/components/dashboard/DebugVisits.jsx:5-8 | equal to the timeline's total |
| DebugVisits.GroupByChurch | src/components/dashboard/DebugVisits.jsx:11-20 | the groups are filed under exactly the church list's names; each group holds all visited items of that name, in input order, and is non-empty; the group sizes sum to the visited, named items; `order`, the list `Object.entries` follows, is the names in order of first occurrence |
| DebugVisits.UniqueChurchCount | src/components/dashboard/DebugVisits.jsx:22 | the number of distinct names among visited, named items |
| DebugVisits.SameAsChurchListEntries | src/components/dashboard/DebugVisits.jsx:10-22 | the church list's deduplication keeps exactly as many entries as this card counts names |
| DebugVisits.VisitsWithoutChurch | src/components/dashboard/DebugVisits.jsx:30-32 | exactly the visited items with a falsy Church, each as often as it occurs (the length is their count), in input order (an increasing index map into the input) |
| DebugVisits.VisitsPartition | src/components/dashboard/DebugVisits.jsx:6-32 | every visit is named or unnamed, never both |
| DebugVisits.GroupsPartitionVisits | src/components/dashboard/DebugVisits.jsx:11-32 | visit count = sum of group sizes + unnamed visits |
| DebugVisits.DifferenceNonNegative | src/components/dashboard/DebugVisits.jsx:44 | the displayed difference is at least the number of unnamed visits, so never negative |
| DebugVisits.LargerFirstIsTotalPreorder | src/components/dashboard/DebugVisits.jsx:27 | the size comparator is total and transitive |
| DebugVisits.MultipleVisits | src/components/dashboard/DebugVisits.jsx:25-27 | a permutation of the groups larger than one, in non-increasing size |
| DebugVisits.MultipleVisitsMembers | src/components/dashboard/DebugVisits.jsx:25-26 | an entry is listed iff it is a name's group with more than one visit |
| DebugVisits.Preview | src/components/dashboard/DebugVisits.jsx:51 | at most five rows, a prefix, and all rows when there are five or fewer |
| DebugVisits.MoreNote | src/components/dashboard/DebugVisits.jsx:57 | the "...and N more" note appears iff there are more than five rows, and N is the number beyond the first five |
| DebugVisits.PreviewAccountsForAll | src/components/dashboard/DebugVisits.jsx:51-57 | listed rows plus "...and N more" make up every row, and the note appears iff rows are left unlisted |
| ContactManagement.ContactStatus | src/components/dashboard/ContactManagement.jsx:24-28 | waiting iff the Visit Date is falsy; responsive iff dated and Visit? is exactly "Yes"; otherwise follow-up |
| ContactManagement.VisitedIsNeverResponsive | src/components/dashboard/ContactManagement.jsx:26 | a row the other cards count as visited is never responsive, and it needs follow-up once dated |
| ContactManagement.InteractionsMeaning | src/components/dashboard/ContactManagement.jsx:15-21 | one 'visit' interaction carrying the Visit Date and Visit Notes iff the notes are truthy, otherwise none |
| ContactManagement.ToContact | src/components/dashboard/ContactManagement.jsx:7-22 | a record survives the placeholder filter iff its item names a contact, and its status is the item's contact status |
| ContactManagement.Contacts | src/components/dashboard/ContactManagement.jsx:7-22 | no more contacts than items |
| ContactManagement.ContactsAreNamedItems | src/components/dashboard/ContactManagement.jsx:7-22 | the contacts are, in order, the records of exactly the items whose Contact is truthy and not "No Contact Listed" |
| ContactManagement.ContactStats | src/components/dashboard/ContactManagement.jsx:46-57 | total = active + follow-up + waiting, and new-this-week ≤ total |
| ContactManagement.NewThisWeekMeaning | src/components/dashboard/ContactManagement.jsx:50-56 | an undated contact is never new; a dated one is new iff its date is at or after seven days before now |
| ContactManagement.Label | src/components/dashboard/ContactManagement.jsx:107-109 | the displayed label equals the character-by-character reference label |
| ContactManagement.LabelCharsIsSplitJoin | src/components/dashboard/ContactManagement.jsx:107-109 | split, capitalise and join equals the character-by-character reference label |
| ContactManagement.LabelCharAt | src/components/dashboard/ContactManagement.jsx:107-109 | each character of the reference label is a space for a dash, upper-cased at a word start, otherwise unchanged |
| ContactManagement.LabelMeaning | src/components/dashboard/ContactManagement.jsx:107-109 | the label has the status's length; dashes become spaces and each word's first character is upper-cased |
| ContactManagement.LabelOfWords | src/components/dashboard/ContactManagement.jsx:107-109 | a dash-free word is capitalised, and later words follow after a space |
| ContactManagement.StatusLabels | src/components/dashboard/ContactManagement.jsx:107-109 | the labels are "Follow Up Needed", "Waiting Response" and "Responsive" |
| ChurchMap.FilteredChurches | src/components/dashboard/ChurchMap.jsx:18-21 | an item is kept iff its Church or Address string contains the search text, ignoring case; there are as many kept items as input items passing the search, and they keep their relative order (an increasing index map into the input), so the kept list, and with it each marker's index, is fixed |
| ChurchMap.EmptySearchMatches | src/components/dashboard/ChurchMap.jsx:19-20 | an empty search matches exactly the string values |
| ChurchMap.EmptySearchKeepsNamedOrAddressed | src/components/dashboard/ChurchMap.jsx:18-21 | an empty search keeps, in order, exactly the items with a Church or Address string |
| ChurchMap.Position | src/components/dashboard/ChurchMap.jsx:24-27 | every marker lies on the 50-unit grid with 100 ≤ x ≤ 350 and y ≥ 150 |
| ChurchMap.PositionColumn | src/components/dashboard/ChurchMap.jsx:25 | x = 100 + 50·(i mod 6), so 100 ≤ x ≤ 350 |
| ChurchMap.PositionRow | src/components/dashboard/ChurchMap.jsx:26 | y = 150 + 50·(i div 6); non-decreasing in i and constant within a block of six |
| ChurchMap.PositionInjective | src/components/dashboard/ChurchMap.jsx:24-27 | no two indices share a position |
| ChurchMap.MarkerColour | src/components/dashboard/ChurchMap.jsx:73 | one of the five colours or the fallback, and not the fallback iff the stage is one of the five keys |
| ChurchMap.ColourOfStage | src/components/dashboard/ChurchMap.jsx:10-16 | a listed stage's colour is chosen iff the Stage is exactly that string |
| ChurchMap.DistributionStagesWithoutColour | src/components/dashboard/ChurchMap.jsx:10-16 | of the distribution card's stages only Prospect and Visited get a colour of their own |

## Left out

- **Network and parsing.** `fetch`, `response.text()` and `Papa.parse` are
  network I/O and a foreign CSV parser. The model starts from the parsed
  rows.
- **Number cells.** Cells hold integers only. Decimal numbers from dynamic
  typing, and their string forms, are not modelled.
- **Routine UI and I/O.** Left out:
  - the password gate, session storage, polling timers and loading flags;
  - the timeline's own fetch in `useEffect`;
  - routing, layout, JSX markup and icons;
  - the styling colour maps and text colours;
  - `getInteractionIcon`;
  - the selected church on the map;
  - all `console` calls.
- **Parsing and formatting dates.** `new Date(string)`, `toLocaleDateString`
  and the `toLocaleString` month names are host functions. Dates enter as
  the `parse` parameter. A month point is identified by its index 0..11.
- **Time zones and daylight saving.** These are not modelled. Days are
  fixed 86 400 000 ms steps on the local clock. The model does not check
  that the year and month the parser reports agree with the time value.
- **Rounding.** `StageDistribution.RoundPercent` uses exact rational
  rounding (half up), not floating-point `Math.round`.
- **String comparison.** `localeCompare` and the default sort order are
  modelled as plain lexicographic order on characters. Case mapping covers
  ASCII letters only.
- **Key order in `Object.values`/`Object.entries`.** These follow insertion
  order in the model. JavaScript lists integer-like keys first in numeric
  order, so a church named "12" would be listed earlier than the model
  says.
- **Names of prototype members.** Names such as "constructor",
  "toString" or "__proto__" collide with members of `Object.prototype`.
  In the accumulator objects the model treats every name as an ordinary
  key. The same goes for the colour lookup `stageColors[church.Stage]`:
  for such a Stage the source finds an inherited, truthy member and uses
  it instead of the fallback, while `ChurchMap.MarkerColour` gives the
  fallback colour.
- **Characters and code units.** `charAt(0)` and `slice(1)` work on
  UTF-16 code units. `ChurchList.FirstUpper` and
  `ContactManagement.Capitalize` take the first character of a
  `seq<char>`, which differs for names that start with a character
  outside the Basic Multilingual Plane.
- **The conversion rate, `StageDistribution.RateBounds`.** The lemma
  states that a rate of 100 follows when every item has the stage. It does
  not state the converse, because the converse is false
  (`StageDistribution.RateHundredWithoutAll`).
- **Undated visits, `VisitTimeline.Visits`.** The comparator returns NaN
  for an undated visit, and the engine's order is then implementation
  defined. The model picks one admissible order: undated visits last, in
  input order. Its ordering claim is only about dated visits and about
  their position before undated ones.
- **Sort stability.** The order among equal names or equal group sizes is
  not claimed.
- **Church-list string methods: `ChurchList.SortedChurches`,
  `ChurchList.FilteredChurches` and `ChurchList.AvailableLetters`.** These
  require every Church to be a string, as the component's prop types
  declare; `FilteredChurches` also requires, of each entry whose name does
  not contain the search term, that its Address be a string or absent
  (`ChurchList.SearchableAddresses`), since `||` reads the Address only then. The source calls string methods on these values and throws on
  other types. With fewer than two entries the sort never calls its
  comparator, a case these requires do not single out.
- **Map search, `ChurchMap.FilteredChurches`.** It requires that no value
  it calls `toLowerCase` on is a non-string (`ChurchMap.SearchDefined`),
  because the source throws there.
- **Paging buttons, `VisitTimeline.TimelinePager.ViewMore` and
  `VisitTimeline.TimelinePager.ShowLess`.** Both require the class
  invariant (a positive multiple of five), which every reachable state
  keeps. React's batching of state updates is not modelled.
- **Placeholder fields.** The role, email and phone placeholders of a
  contact are fixed constants. "View More Contacts" has no handler in the
  source and is not modelled.

## Findings

| source | as written | input that shows it | evidently intended | confidence | as-written member | corrected member |
|---|---|---|---|---|---|---|
| src/components/dashboard/VisitTimeline.jsx:51-53 | `weekStart` is moved back to Sunday but keeps the current time of day, so the "this week" window runs from Sunday at now's clock time to Saturday at now's clock time | now = Wednesday 7 January 1970 12:00 local; one visit dated Sunday 4 January 1970 00:00: the count is 0 | the Sunday-to-Saturday calendar week containing now, from Sunday 00:00 to the end of Saturday, which counts that visit (1) | medium, not executed | VisitTimeline.ThisWeekMissesSundayMidnight | VisitTimeline.ThisWeekIntendedMeaning |
