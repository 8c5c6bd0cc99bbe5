# Report dates: parsing, newest-first ordering and the year facet

This project models the report-date logic of the site's front end. That logic is copied almost
word for word into three pages:

- `src/pages/Perspectives.tsx`, the public page that shows the six newest reports;
- `src/pages/PerspectivesContentLibrary.tsx`, the content library with a year dropdown;
- `src/pages/admin/ReportsDashboard.tsx`, the admin list with a delete-confirmation dialog.

The model keeps one shared definition of the copied logic, and each page's module uses it:

- `parseDate` reads a `"<Month> <Year>"` string as the first day of that month, or as the
  "unparseable" sentinel;
- the comparator of `sortByDate`, and `sortByDate` itself: a stable sort of a copy of the list,
  newest first, unparseable dates last;
- on the content-library page, `extractYear`, `getUniqueYears` and the `filteredReports` year
  filter;
- on the Perspectives page, the `slice(0, 6)` of the sorted list;
- on the dashboard, the component state kept across `fetchReports`, `handleDeleteClick`,
  `handleDeleteConfirm`, the dialog's Cancel button and its `onOpenChange`.

Files:

- `wrappers.dfy`: `Option`, standing for `T | null`.
- `js_text.dfy` (module `JsText`): the JavaScript built-ins the pages rely on.
  - `String.prototype.trim`, `toLowerCase` and `split(/\s+/)`;
  - `parseInt(s, 10)`: leading whitespace, an optional sign, then the longest run of digits;
    `NaN` when there is none;
  - `Number.prototype.toString`;
  - a reference tokenizer `Words` (the maximal runs of non-whitespace), which states what
    trimming and splitting achieve.
- `report_dates.dfy` (module `ReportDates`): `Report`, the parsed date as `Valid(year, month)` or
  `Invalid`, `parseDate` and the comparator.
- `newest_first.dfy` (module `NewestFirstSort`): `sortByDate`.
  - The array copy is sorted in place by a stable insertion sort that calls the comparator.
  - The sort is specified by "newest first" plus "each date's reports keep their input order"
    (the per-date `Group`). Those two facts determine the output uniquely.
- `content_library.dfy` (module `ContentLibrary`): `extractYear`, `getUniqueYears` (a loop that
  gathers the set, then an in-place numeric sort) and the year filter.
- `perspectives.dfy` (module `Perspectives`): the fetch effect and the six cards.
- `reports_dashboard.dfy` (module `ReportsDashboard`): the dashboard component as a class whose
  methods update its fields.

A few choices about representation:

- The sentinel `new Date(0)` is the constructor `Invalid`.
- Valid dates are compared by the month stamp `year * 12 + month`. This has the same sign as the
  difference of the two `getTime()` values that the comparator returns.
- `parseInt` is exact on unbounded integers. The only test applied to its result is the range
  check [1900, 2100], so the model's verdict is the code's.

`extractYear` is looser than `parseDate`. For example, `getUniqueYears` of the dates
`May 2022`, `June 2022`, `Jan 1999bad` and `July 2023` is `["2023", "2022", "1999"]`, for two
reasons:

- `extractYear` never reads the month word, so `Jan` is not checked against the month names;
- `parseInt("1999bad", 10)` reads the leading digits and gives 1999.

`ExtractYearIgnoresMonth` and `ParseIntReads` state these two facts.

## Model

| member | source | states |
|---|---|---|
| `JsText.TrimStart` | src/pages/PerspectivesContentLibrary.tsx:44 | the result is a suffix of the input that does not start with whitespace |
| `JsText.TrimEnd` | src/pages/PerspectivesContentLibrary.tsx:44 | the result is a prefix of the input that does not end with whitespace |
| `JsText.TrimStartDropsSpace` | src/pages/PerspectivesContentLibrary.tsx:44 | what `trim` removes at the front is all whitespace |
| `JsText.TrimEndDropsSpace` | src/pages/PerspectivesContentLibrary.tsx:44 | what `trim` removes at the back is all whitespace |
| `JsText.Trim` | src/pages/PerspectivesContentLibrary.tsx:84 | the trimmed string neither starts nor ends with whitespace |
| `JsText.Lower` | src/pages/PerspectivesContentLibrary.tsx:44 | `toLowerCase` keeps the length and maps each character on its own |
| `JsText.Split` | src/pages/PerspectivesContentLibrary.tsx:45 | `split` always yields at least one piece |
| `JsText.Words` | src/pages/PerspectivesContentLibrary.tsx:45 | every word of the reference tokenizer is non-empty and free of whitespace |
| `JsText.WordsTrim` | src/pages/PerspectivesContentLibrary.tsx:84 | trimming does not change the words of a string |
| `JsText.SplitTrimmed` | src/pages/PerspectivesContentLibrary.tsx:85 | on a trimmed string, `split(/\s+/)` gives its words, or `[""]` for the empty string |
| `JsText.SplitTrim` | src/pages/PerspectivesContentLibrary.tsx:84-85 | `trim` then `split` gives the words of the input, or `[""]` when it has none; the trimmed string is empty exactly when there are no words |
| `JsText.SplitLowerTrim` | src/pages/PerspectivesContentLibrary.tsx:44-45 | trim, lower-case, split gives the lower-cased words of the input, or `[""]` |
| `JsText.WordsLower` | src/pages/PerspectivesContentLibrary.tsx:44 | lower-casing a string lower-cases each of its words and nothing else |
| `JsText.ParseIntLower` | src/pages/PerspectivesContentLibrary.tsx:51 | `parseInt` reads the same number before and after lower-casing |
| `JsText.ParseIntDigits` | src/pages/PerspectivesContentLibrary.tsx:88 | a digit run followed by a non-digit reads as that run's value, trailing text ignored |
| `JsText.ParseIntReads` | src/pages/PerspectivesContentLibrary.tsx:51 | after whitespace and an optional sign, `parseInt` reads the longest run of digits, negated after `-`, and ignores the text that follows |
| `JsText.ParseIntNoDigits` | src/pages/PerspectivesContentLibrary.tsx:88 | `parseInt` is `NaN` when no digit follows the whitespace and the optional sign |
| `JsText.ParseIntDecimal` | src/pages/PerspectivesContentLibrary.tsx:91 | `parseInt` of `toString(n)` is `n`, whatever non-digit text follows |
| `JsText.DecimalString` | src/pages/PerspectivesContentLibrary.tsx:91 | `toString` of a natural number is a non-empty digit string without a leading zero, whose value is the number |
| `JsText.WordsOfTwo` | src/pages/PerspectivesContentLibrary.tsx:45 | two words with whitespace before, between and after them are exactly those two words |
| `ReportDates.MonthIndex` | src/pages/PerspectivesContentLibrary.tsx:29-42 | a name is found exactly when it is one of the twelve month names, and its number names it in the table |
| `ReportDates.ParseDate` | src/pages/PerspectivesContentLibrary.tsx:23-61 | the result is the sentinel or a month of a year in [1900, 2100]; the empty string gives the sentinel |
| `ReportDates.DateOfPieces` | src/pages/PerspectivesContentLibrary.tsx:47-57 | the date read from the split pieces is the sentinel or a well-formed month |
| `ReportDates.DateOfLoweredWords` | src/pages/PerspectivesContentLibrary.tsx:49-51 | reading the lower-cased words gives the date of the words under case-insensitive month lookup |
| `ReportDates.ParseDateIsDateOfWords` | src/pages/PerspectivesContentLibrary.tsx:44-57 | `parseDate` depends only on the words of its input: two words, a month name in any case, then a year in range |
| `ReportDates.ParseDateRejects` | src/pages/Perspectives.tsx:20-51 | the sentinel for blank input, a word count other than two, an unknown month, or a missing or out-of-range year |
| `ReportDates.ParseDateAccepts` | src/pages/admin/ReportsDashboard.tsx:63-71 | a month name in any case and a year in range, with any surrounding whitespace, give the first day of that month, whose table entry is the lower-cased name |
| `ReportDates.CompareDatesCases` | src/pages/PerspectivesContentLibrary.tsx:65-74 | two unparseable dates tie, an unparseable date sorts after a parseable one, and two parseable dates sort the later month first and tie exactly on the same month |
| `ReportDates.CompareDatesByRank` | src/pages/PerspectivesContentLibrary.tsx:69-73 | the comparator orders by a single rank (unparseable last), is antisymmetric, and ties exactly equal dates |
| `NewestFirstSort.GroupMember` | src/pages/PerspectivesContentLibrary.tsx:65 | a date's group holds exactly the reports with that date |
| `NewestFirstSort.GroupAppend` | src/pages/PerspectivesContentLibrary.tsx:65 | the group of a concatenation is the concatenation of the groups |
| `NewestFirstSort.GroupCount` | src/pages/PerspectivesContentLibrary.tsx:65 | a report occurs in its date's group as often as in the list |
| `NewestFirstSort.SameGroupsSameMultiset` | src/pages/PerspectivesContentLibrary.tsx:65 | lists with the same groups are permutations of each other |
| `NewestFirstSort.SwapKeepsGroups` | src/pages/PerspectivesContentLibrary.tsx:65 | swapping neighbours with different dates leaves every group unchanged, which keeps the sort stable |
| `NewestFirstSort.NewestFirstUnique` | src/pages/PerspectivesContentLibrary.tsx:64-75 | two newest-first lists with the same groups are equal |
| `NewestFirstSort.InsertionSwap` | src/pages/PerspectivesContentLibrary.tsx:69-73 | moving the inserted report past an older neighbour keeps the prefix ranked |
| `NewestFirstSort.InsertionStops` | src/pages/PerspectivesContentLibrary.tsx:69-73 | once the inserted report is not newer than its neighbour, the prefix is sorted one further |
| `NewestFirstSort.InsertNext` | src/pages/PerspectivesContentLibrary.tsx:65 | one insertion step extends the sorted prefix by one and keeps every group |
| `NewestFirstSort.SortInPlace` | src/pages/PerspectivesContentLibrary.tsx:65 | the array ends newest first, a permutation of its old contents, with every group unchanged |
| `NewestFirstSort.SubsequenceKeepsOrder` | src/pages/PerspectivesContentLibrary.tsx:135 | an order-preserving part of a newest-first list is newest first |
| `NewestFirstSort.SubsequenceMember` | src/pages/PerspectivesContentLibrary.tsx:135 | every element of an order-preserving part is an element of the whole |
| `NewestFirstSort.StableNewestFirstUnique` | src/pages/admin/ReportsDashboard.tsx:77-86 | there is exactly one stable newest-first ordering of a list |
| `NewestFirstSort.SortByDate` | src/pages/PerspectivesContentLibrary.tsx:64-75 | a permutation of the input, same length; parseable dates first in non-increasing (year, month) order; unparseable dates last; equal dates in input order; an already sorted list comes back unchanged |
| `NewestFirstSort.FetchedList` | src/pages/Perspectives.tsx:79-84 | after a successful fetch the list is the stable newest-first sort of the fetched reports; after a failed one it is unchanged; a newest-first list stays newest first |
| `ContentLibrary.DecimalYear` | src/pages/PerspectivesContentLibrary.tsx:91 | `toString` of a year in range is a canonical year string with that value |
| `ContentLibrary.ExtractYear` | src/pages/PerspectivesContentLibrary.tsx:78-95 | an empty date has no year, and every year `extractYear` yields is a canonical year string in [1900, 2100] |
| `ContentLibrary.ExtractYearIsYearOfWords` | src/pages/PerspectivesContentLibrary.tsx:78-95 | `extractYear` gives the canonical year exactly when the input has two words and the second starts with a year in range, and `null` otherwise |
| `ContentLibrary.ExtractYearOfParsedDate` | src/pages/PerspectivesContentLibrary.tsx:84-91 | whenever `parseDate` accepts a date, `extractYear` yields its year |
| `ContentLibrary.ExtractYearIgnoresMonth` | src/pages/PerspectivesContentLibrary.tsx:86-91 | a word that is not a month followed by a year: `extractYear` yields the year, `parseDate` gives the sentinel |
| `ContentLibrary.YearsByMember` | src/pages/PerspectivesContentLibrary.tsx:101-104 | a year is gathered exactly when some report yields it |
| `ContentLibrary.YearSetMember` | src/pages/PerspectivesContentLibrary.tsx:101-104 | a year is in the page's year set exactly when some report's date yields it |
| `ContentLibrary.YearSetCanonical` | src/pages/PerspectivesContentLibrary.tsx:99-104 | every year in the set is a canonical year string |
| `ContentLibrary.YearOfNotEmpty` | src/pages/PerspectivesContentLibrary.tsx:103 | `extractYear` never yields `""`, so `if (year)` drops only `null` |
| `ContentLibrary.NumberInsertionSwap` | src/pages/PerspectivesContentLibrary.tsx:106 | moving the inserted year past a smaller neighbour keeps the prefix descending |
| `ContentLibrary.NumberInsertionStops` | src/pages/PerspectivesContentLibrary.tsx:106 | once the inserted year is not larger than its neighbour, the prefix is descending one further |
| `ContentLibrary.SwapPermutes` | src/pages/PerspectivesContentLibrary.tsx:106 | swapping two neighbours permutes the list |
| `ContentLibrary.InsertByNumber` | src/pages/PerspectivesContentLibrary.tsx:106 | one insertion step extends the descending prefix and permutes the array |
| `ContentLibrary.CompareNumbers` | src/pages/PerspectivesContentLibrary.tsx:106 | the comparator `parseInt(b) - parseInt(a)` is negative exactly when the first number is larger, positive exactly when it is smaller, zero exactly on equal numbers, and zero whenever either side is `NaN` |
| `ContentLibrary.SortByNumber` | src/pages/PerspectivesContentLibrary.tsx:106 | the array ends numerically descending, a permutation of its old contents |
| `ContentLibrary.DistinctDescendingIsStrict` | src/pages/PerspectivesContentLibrary.tsx:106 | distinct canonical year strings in descending order are strictly descending |
| `ContentLibrary.DistinctPermutation` | src/pages/PerspectivesContentLibrary.tsx:106 | sorting a list without repeats leaves no repeats |
| `ContentLibrary.DistinctCount` | src/pages/PerspectivesContentLibrary.tsx:99 | in a list without repeats every entry occurs at most once |
| `ContentLibrary.PermutationKeepsYearStrings` | src/pages/PerspectivesContentLibrary.tsx:106 | sorting canonical year strings yields canonical year strings |
| `ContentLibrary.GatherYears` | src/pages/PerspectivesContentLibrary.tsx:99-104 | the gathered years are exactly the years the reports yield, without repeats |
| `ContentLibrary.UniqueYears` | src/pages/PerspectivesContentLibrary.tsx:98-107 | the listed years are exactly the years some report's date yields: canonical, without repeats, strictly descending by value |
| `ContentLibrary.FilterByYear` | src/pages/PerspectivesContentLibrary.tsx:132-135 | `"all"` shows the list unchanged; any other selector shows the reports of that year |
| `ContentLibrary.KeepBy` | src/pages/PerspectivesContentLibrary.tsx:135 | the filter over any year reader never lengthens the list, and every report it keeps has the selected year |
| `ContentLibrary.KeepYear` | src/pages/PerspectivesContentLibrary.tsx:135 | the filter never lengthens the list, and every report it keeps yields the selected year |
| `ContentLibrary.KeepYearSubsequence` | src/pages/PerspectivesContentLibrary.tsx:135 | the filtered list is an order-preserving part of the list |
| `ContentLibrary.KeepYearCount` | src/pages/PerspectivesContentLibrary.tsx:135 | each report of the selected year is kept as often as it occurs; no other report is kept |
| `ContentLibrary.KeepYearMember` | src/pages/PerspectivesContentLibrary.tsx:135 | a report is shown exactly when it is in the list and its date yields the selected year |
| `ContentLibrary.YearOfferedIsNotEmpty` | src/pages/PerspectivesContentLibrary.tsx:130-135 | every year offered in the dropdown differs from `"all"` and selects at least one report |
| `ContentLibrary.KeepYearKeepsOrder` | src/pages/PerspectivesContentLibrary.tsx:132-135 | filtering a newest-first list keeps it newest first |
| `ContentLibrary.LibraryView` | src/pages/PerspectivesContentLibrary.tsx:130-135 | the dropdown years are the canonical years of the reports, strictly descending; the shown list is the filter's, newest first when the list is |
| `Perspectives.Featured` | src/pages/Perspectives.tsx:146 | the cards are the first min(6, n) reports, in list order: the whole list when it has fewer than six |
| `Perspectives.FeaturedAreNewest` | src/pages/Perspectives.tsx:146 | on a newest-first list no report left off the page is newer than a card, and an unparseable card means every report left off is unparseable |
| `Perspectives.PerspectivesPage.constructor` | src/pages/Perspectives.tsx:74-75 | the page starts loading with no reports, a list that is trivially newest first |
| `Perspectives.PerspectivesPage.FetchReports` | src/pages/Perspectives.tsx:77-91 | success stores the stable newest-first sort of the fetched list; failure keeps the list; loading ends either way |
| `Perspectives.PerspectivesPage.Cards` | src/pages/Perspectives.tsx:146 | the rendered cards are a prefix of the list: six of them when there are six or more, otherwise the whole list |
| `ReportsDashboard.Dashboard.constructor` | src/pages/admin/ReportsDashboard.tsx:34-37 | the dashboard starts loading, with no reports (trivially newest first), the dialog closed and nothing pending |
| `ReportsDashboard.Dashboard.FetchReports` | src/pages/admin/ReportsDashboard.tsx:88-98 | success stores the stable newest-first sort of the fetched list; failure keeps it; loading ends; the dialog state is untouched |
| `ReportsDashboard.Dashboard.HandleDeleteClick` | src/pages/admin/ReportsDashboard.tsx:100-103 | the pending id becomes the clicked id and the dialog opens; the list and its newest-first order are untouched |
| `ReportsDashboard.Dashboard.HandleDeleteConfirm` | src/pages/admin/ReportsDashboard.tsx:105-119 | with no truthy pending id nothing changes and nothing is requested; otherwise the pending report's delete is requested, the dialog closes and the pending id is cleared on success and on failure, and only success refetches; the list and its newest-first order are untouched |
| `ReportsDashboard.Dashboard.Cancel` | src/pages/admin/ReportsDashboard.tsx:229 | Cancel clears the pending id and changes nothing else, so the list stays newest first |
| `ReportsDashboard.Dashboard.OnOpenChange` | src/pages/admin/ReportsDashboard.tsx:220 | the dialog's open flag follows the dialog and nothing else changes, so the list stays newest first |
| `ReportsDashboard.ClickThenConfirm` | src/pages/admin/ReportsDashboard.tsx:100-119 | a click then a confirmation requests the clicked report's delete and leaves the dialog closed with nothing pending, unless the id is empty; the list stays newest first |

`parseDate` and `sortByDate` appear three times in the source. The copies are:

- src/pages/PerspectivesContentLibrary.tsx:23-75;
- src/pages/Perspectives.tsx:19-71;
- src/pages/admin/ReportsDashboard.tsx:45-86.

They agree in behaviour. The dashboard's copy looks the month up with `months[parts[0]]`
directly (src/pages/admin/ReportsDashboard.tsx:67) and has no `monthName` binding; the others
bind `monthName` first. `ReportDates.ParseDate` and `NewestFirstSort.SortByDate` model all three.

## Left out

- The network and the UI are parameters or are left out:
  - `reportsAPI`: what `getAll` returns is a parameter (`None` for a failed request), and the
    outcome of the delete request is a boolean parameter;
  - toasts, `console.error`, navigation, logout and the markup;
  - the asynchronous ordering of React state updates: each handler runs as one step.
- The content-library page's own fetch effect (src/pages/PerspectivesContentLibrary.tsx:114-128) is
  not modelled separately. It matches the Perspectives page's `FetchReports`, and `LibraryView`
  starts from its sorted list.
- The `typeof dateStr !== "string"` guard and the `try`/`catch` blocks are not modelled:
  - a `Report`'s `date` is always a string;
  - nothing in the guarded code throws on a string.
- `ReportDates.ParseDate`: the source's sentinel is the epoch, `new Date(0)`. In a UTC time zone
  `new Date(1970, 0, 1)` (`"January 1970"`) has the same `getTime()` and sorts as unparseable.
  The model keeps `Valid(1970, 0)` apart from `Invalid`. The date of a valid string is the first
  day of its month as `(year, month)`, without a time zone or milliseconds.
- `ReportDates.CompareDates` returns the difference of month stamps, not of milliseconds. Only
  its sign matters to `sort`, and the sign is the same.
- `ReportDates.MonthIndex`: the month table holds exactly the twelve keys. Prototype keys such
  as `"constructor"` or `"__proto__"` are not found in it. In JavaScript they yield a value that
  is not `undefined`, so the page returns an Invalid Date, which the comparator does not treat as
  the sentinel.
- `JsText.Lower` lower-cases the ASCII letters A-Z only. Other characters can lower-case to
  month-name letters: U+0130 (capital I with dot above) becomes `"i"` followed by the combining
  mark U+0307. The mark stays in the word, so the word still matches no month name and no month
  lookup changes. Lower-casing also changes no whitespace or digit test.
- `JsText.IsSpace` is the exact set of ECMAScript white-space and line-terminator code points
  that `trim` and `\s` use, not an ASCII subset.
- `ReportsDashboard.Dashboard.HandleDeleteConfirm` does not perform the refetch itself. It returns
  `refetch`, and the caller applies `FetchReports` to the refreshed list. The deleted report
  leaves the dashboard only through that refetch, as in the source.
- `NewestFirstSort.SortByDate` sorts by insertion. `Array.prototype.sort` is stable since
  ES2019, and the comparator is consistent (`CompareDatesByRank`). So every conforming engine
  produces the same output, and `StableNewestFirstUnique` proves that output unique.
- `ContentLibrary.SortByNumber` sorts by insertion for the same reason: the year strings are
  distinct, so the descending order is unique.
- Concrete examples (such as `"March 2024"`) are not stated as lemmas. `ParseDateAccepts`,
  `ParseDateRejects` and `ExtractYearIgnoresMonth` cover them by their shape.
