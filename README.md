# Opportunity list engine of the consultant dashboard

This project models the opportunity list engine of the admin page
`src/pages/OpportunitiesAdmin.tsx` in Dafny and proves properties of it. The
page keeps a shared, ordered, mutable list of opportunity records. Each record
has an id, a title, a description, a consultant email, a start and an end date,
and a status (`pending`, `accepted` or `declined`). The page can:

- add a record from the "Add New Opportunity" form;
- delete a record by id;
- run the table query: a case-insensitive search and status filter, a sort on
  one of four keys in either direction, and pages of five;
- count each consultant's opportunities by status and compute three rates
  (the rates are computed but never displayed);
- render a duration label for each record;
- build the CSV export text (`exportToCSV` is defined but nothing on the
  page calls it).

Modules, one per concern of the page:

- `Text` (text.dfy): an ASCII-only stand-in for `toLowerCase`, `includes`, JavaScript's `<` on
  strings, `join`/`split`, and decimal rendering.
- `Opportunities` (opportunity.dfy): the record, the status, the date, the
  form, and the submit guard.
- `Filtering` (filtering.dfy): the filter predicate and the filtered list.
- `Sorting` (sorting.dfy): the comparator, the stable sort as a function, and
  the in-place array sort.
- `Paging` (paging.dfy): `slice`, the page count, and the Prev/Next buttons.
- `Metrics` (metrics.dfy): the per-consultant grouping and the rates.
- `Duration` (duration.dfy): `getDuration`.
- `Csv` (csv.dfy): the export text.
- `Store` (store.dfy): the class `OpportunityStore`, which owns the list as a
  `seq` field. Its methods are add, submit, find, delete, query and metrics.

Dates are modelled as `Date(iso, day)`. `iso` is the text the page stores,
checks for emptiness and exports. `day` is the calendar day number that text
denotes. So the date sort keys compare day numbers, and the `duration` key
(`differenceInDays`) is `end.day - start.day`.

`Compare` is the comparator handed to `sort`. It subtracts day numbers and
compares status names as strings. `Key` gives the integer position each
record sorts at; for the status key that is the rank of the name in string
order. `CompareIsTotalPreorder` shows the comparator is positive exactly when
one key belongs after the other (`After`).

The sort is stated against a functional insertion sort `Sorted`. Stability
means: for every key value, the records with that key keep the order they had
in the filtered list. `StableOrderIsUnique` proves that only one list is
ordered and stable in this sense. So any stable `Array.prototype.sort`
(required since ECMAScript 2019) gives exactly `Sorted`.

## Model

| member | source | states |
|---|---|---|
| `Text.ContainsIff` | src/pages/OpportunitiesAdmin.tsx:116 | `Contains` (`includes`) holds exactly when the needle occurs at some position of the text |
| `Opportunities.StatusNameOrder` | src/pages/OpportunitiesAdmin.tsx:135-146 | comparing status names as strings orders them accepted < declined < pending, and names are equal only for equal statuses |
| `Filtering.FilteredIsSubsequence` | src/pages/OpportunitiesAdmin.tsx:115-118 | `Filtered` (the `filter` call) is a subsequence of the list |
| `Filtering.FilteredAllMatch` | src/pages/OpportunitiesAdmin.tsx:115-118 | every filtered record passes the search and the status filter |
| `Filtering.FilteredCounts` | src/pages/OpportunitiesAdmin.tsx:115-118 | each matching record is kept as many times as it occurs in the list, and no other record is kept |
| `Filtering.FilteredMembership` | src/pages/OpportunitiesAdmin.tsx:115-118 | a record is in the filtered list iff it is in the list and matches the search (empty, or lower-cased title or email contains it) and the status filter (empty, or equal to the status) |
| `Sorting.CompareIsTotalPreorder` | src/pages/OpportunitiesAdmin.tsx:119-151 | `Compare`, the comparator passed to `sort`, is positive exactly when the first record's key belongs after the second's, zero exactly on equal keys, antisymmetric and transitive, and descending is the negation of ascending |
| `Sorting.OrderedByComparator` | src/pages/OpportunitiesAdmin.tsx:119-151 | a list is `Ordered` exactly when no earlier record compares after a later one under the comparator |
| `Sorting.SortedIsStableSort` | src/pages/OpportunitiesAdmin.tsx:119-152 | `Sorted` (the `sort` call) is a permutation of the filtered list, ordered by the chosen key and direction, and each key's records keep their filtered order |
| `Sorting.StableOrderIsUnique` | src/pages/OpportunitiesAdmin.tsx:119-152 | two ordered lists with the same per-key record order are equal, so a stable sort has one possible result |
| `Sorting.AnyStableSortIsSorted` | src/pages/OpportunitiesAdmin.tsx:119-152 | any ordered list with the input's per-key order is `Sorted` of the input |
| `Sorting.TiesKeepOrderBothWays` | src/pages/OpportunitiesAdmin.tsx:143-151 | two records with equal keys keep their order in both ascending and descending sorts, so descending is not the reverse of ascending |
| `Sorting.DurationExample` | src/pages/OpportunitiesAdmin.tsx:131-134 | records lasting 5, 1 and 3 days sort ascending by duration as 1, 3, 5 |
| `Sorting.InsertInPlace` | src/pages/OpportunitiesAdmin.tsx:119 | moving one record left in the array inserts it into the sorted prefix and leaves the rest of the array alone |
| `Sorting.SortInPlace` | src/pages/OpportunitiesAdmin.tsx:119 | sorting the filtered array in place leaves exactly `Sorted` of its old contents |
| `Paging.TotalPagesIsCeiling` | src/pages/OpportunitiesAdmin.tsx:153 | `TotalPages`, the page count, is the fewest pages of five that hold all filtered records, that is `ceil(n/5)` |
| `Paging.PageIsWindow` | src/pages/OpportunitiesAdmin.tsx:154 | `Page(s, p)` (the `slice` call) is the window `[(p-1)*5, p*5)` of the list clipped to its length; it has at most five records and is non-empty exactly for p in `[1, totalPages]` |
| `Paging.PagesPartitionList` | src/pages/OpportunitiesAdmin.tsx:153-154 | pages 1 to `totalPages` laid end to end give back the whole sorted list |
| `Paging.NavigationStaysInRange` | src/pages/OpportunitiesAdmin.tsx:247-249 | from a page in `[1, totalPages]`, `PrevPage` and `NextPageAsWritten` (the Prev and Next buttons) keep the page in that range, and there the written Next guard agrees with the intended `NextPage` |
| `Store.NextPageStrandedAsWritten` | src/pages/OpportunitiesAdmin.tsx:249 | with 11 records with distinct ids, page 3 holds only the last one; after `RemoveFirst` of its id, 10 records remain, page 3 is empty, and the written Next guard still moves on to the empty page 4 |
| `Paging.NextPageStaysOnRecords` | src/pages/OpportunitiesAdmin.tsx:249 | with the intended guard, Next moves only to a non-empty page at most `totalPages` |
| `Metrics.GroupKeys` | src/pages/OpportunitiesAdmin.tsx:157-167 | an email is a key of `Group` (the `forEach` fold) iff some record has that email |
| `Metrics.GroupCounts` | src/pages/OpportunitiesAdmin.tsx:157-167 | under each key the grouping holds that consultant's total and per-status counts, counted directly from the list |
| `Metrics.GroupCountsConsistent` | src/pages/OpportunitiesAdmin.tsx:160-164 | for each key, `total == accepted + declined + pending` and `total >= 1` |
| `Metrics.GroupConservesTotal` | src/pages/OpportunitiesAdmin.tsx:157-167 | the totals over all keys add up to the list length |
| `Metrics.RatesWellDefined` | src/pages/OpportunitiesAdmin.tsx:203-205 | `ResponseRate`, `CompletionRate` and `EngagementRate` each have a positive denominator and lie in [0, 1]; engagement is 0 when `accepted + declined == 0` |
| `Metrics.MetricsExample` | src/pages/OpportunitiesAdmin.tsx:157-167 | one accepted, one declined and one pending record of one consultant give counts 3/1/1/1 and rates 2/3, 1/3, 1/2 |
| `Duration.DurationLabelRoundTrip` | src/pages/OpportunitiesAdmin.tsx:104-112 | the label from `GetDuration` is "-" iff a date is empty or the end is before the start; otherwise it reads back as the day difference, written without a leading zero, with "days" unless it is one day |
| `Csv.CsvRoundTrip` | src/pages/OpportunitiesAdmin.tsx:20-27 | with no comma or newline in any field, `CsvText` splits back into the six-column header and one six-field row per record, in input order |
| `Csv.CommaInTitleAddsColumn` | src/pages/OpportunitiesAdmin.tsx:23-27 | fields are not escaped: a title holding one comma makes its line split into seven fields |
| `Store.RemoveAbsent` | src/pages/OpportunitiesAdmin.tsx:83-89 | `RemoveFirst` of an id no record has leaves the list unchanged |
| `Store.RemovePresent` | src/pages/OpportunitiesAdmin.tsx:83-89 | `RemoveFirst` (`findIndex` then `splice`) of an id removes exactly its first record: one shorter, the others in their order, nothing else removed |
| `Store.RemoveIdempotent` | src/pages/OpportunitiesAdmin.tsx:83-89 | with unique ids, deleting twice equals deleting once |
| `Store.RemoveTwiceWithRepeatedId` | src/pages/OpportunitiesAdmin.tsx:83-89 | with a repeated id, a second delete removes a second record |
| `Store.OpportunityStore.constructor` | src/pages/OpportunitiesAdmin.tsx:55-58 | the list starts as the loaded contents |
| `Store.OpportunityStore.Add` | src/pages/OpportunitiesAdmin.tsx:74 | `addOpportunity` appends the record |
| `Store.OpportunityStore.Submit` | src/pages/OpportunitiesAdmin.tsx:60-81 | nothing changes unless every form field is non-empty; otherwise exactly one record is appended, with status pending |
| `Store.OpportunityStore.FindIndex` | src/pages/OpportunitiesAdmin.tsx:84 | returns the first position whose id matches, or -1 exactly when no record has the id |
| `Store.OpportunityStore.Delete` | src/pages/OpportunitiesAdmin.tsx:83-89 | the new list is the old one with the first record of that id removed |
| `Store.OpportunityStore.Query` | src/pages/OpportunitiesAdmin.tsx:114-154 | the page shown is page `page` of the stable sort of the filtered list; also returns the filtered count and `ceil(count/5)`; the list itself is not changed |
| `Store.OpportunityStore.ConsultantMetrics` | src/pages/OpportunitiesAdmin.tsx:157-167 | the loop builds the grouping: keys are exactly the emails present, each entry holds consistent counts of that consultant, and the totals sum to the list length |

## Findings

| source | as written | input that shows it | evidently intended | confidence | as-written member | corrected member |
|---|---|---|---|---|---|---|
| src/pages/OpportunitiesAdmin.tsx:249 | Next is disabled only when `page === totalPages`, and `page` is not clamped when the list shrinks | 11 records, on page 3 delete its only record: 10 records, 2 pages, page 3 shows nothing, and Next is enabled and goes to page 4 | Next disabled when `page >= totalPages` | medium, not executed | `Store.NextPageStrandedAsWritten` | `Paging.NextPageStaysOnRecords` |

## Left out

- React plumbing is not modelled: `useState`/`useEffect`/`useMemo`, the `refresh` counter, the form reset after submit, JSX, status badges and the consultant details modal. Search, status filter, sort key, direction and page are plain parameters. The JSX never renders controls for the search, the filter or the sort.
- Date parsing (`new Date(...).getTime()`, `parseISO`, `differenceInDays`) is a library call. Each date carries its day number instead. Unparseable dates, whose comparator result is NaN, are out of scope. So is the UTC-versus-local difference between the two parsers.
- The rates are exact fractions (`Ratio`), not floating-point percentages. The `* 100` and the `|| 0` NaN coercion are reduced to the zero guards. The page computes the rates times 100 but never displays them: each consultant card shows only the email, the total, the accepted and the declined counts.
- The browser download in `exportToCSV` (Blob, object URL, anchor click) is I/O; only the text is modelled. The JSX has no control that calls `exportToCSV`, so the export is modelled as a function the page defines, not as something a user can trigger.
- `loadOpportunities` and `addOpportunity` belong to `@/services/opportunityStore`, which is not part of this model. The constructor takes the loaded list as a parameter.
- Store.OpportunityStore.Add: assumed to append the record to the shared list, because the store module's code is not part of this model.
- `Date.now()` ids are a parameter of `Submit`. Nothing makes ids unique, so deletion is proved idempotent only for unique ids, with a counterexample otherwise. The page never checks that ids are unique: two submits in the same millisecond get the same id.
- `Text.Lower` folds only ASCII A-Z. JavaScript's `toLowerCase` also folds other Unicode letters (and can change a string's length), so for non-ASCII titles or emails `Filtered` can drop a record the page keeps.
- The grouping is a Dafny `map`. A JavaScript object also inherits keys such as `constructor` from `Object.prototype`, and an email equal to one of those names would not get its own entry; that is not modelled.
- `getDuration`'s `catch` branch is not modelled, because `differenceInDays` returns NaN rather than throwing.
- The `default` branch of the sort key switch is not modelled, because the key's type has only the four cases.
- `Array.prototype.sort`'s own algorithm is not modelled. The model sorts by insertion, and `AnyStableSortIsSorted` shows that every stable sort gives the same result.
