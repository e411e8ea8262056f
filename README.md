# Invoice dashboard: the table's derivation layer in Dafny

This project models how the financial dashboard turns the list of loaded invoice lines
(`Factura`) into the rows the user sees:

- **Record model** (`types.dfy`, module `Types`). The `Factura` record, the four-value
  status enumeration `EstadoFactura` with its string values, and the summary shapes
  `KpiData`, `MonthlySales`, `ClientData` and `StatusData`. Amounts are integer cents and
  dates are integer day numbers. `alicuotaIva` is a `real`.
- **JavaScript string primitives** (`js_text.dfy`, module `JsText`). These are
  `toLowerCase`, `includes` and the relational `<` on strings, which the filters and the
  sorts rely on.
- **Stable sort** (`stable_sort.dfy`, module `StableSort`). This is `Array.prototype.sort`
  with a comparator. Its specification is a functional insertion sort, proved to permute,
  sort and keep ties in input order. An in-place insertion sort on an array is proved to
  compute exactly that sequence.
- **Table controller** (`data_table.dfy`, module `DataTable`). The component state (current
  page and sort configuration) is the class `DataTableState`. It holds the comparator over
  the six sortable columns, `requestSort`, the sort of a copy of the rows, `totalPages`,
  the fifteen-row page slice with JavaScript `slice` semantics, the "Mostrando a–b" range
  and the previous/next buttons.
- **Filter composer** (`dashboard.dfy`, module `Dashboard`). The three table filters (free
  text, company, status), `uniqueEmpresas`, the status options offered by the selector
  and the "Pendiente de Cobro" figure.

The status column sorts by the status's string value, which is alphabetical (ANULADO,
COBRADO, IMPAGO, PENDIENTE), not declaration order.

The page count is `Math.ceil(n / 15)`, so an empty table has 0 pages; the code sets no
minimum of one page, and neither does the model (`DataTable.TotalPages`). See
"## Findings" for what this does to the "next" button.

## Model

| member | source | states |
|---|---|---|
| Types.Value | types.ts:1-6 | each status carries one of the four strings COBRADO, IMPAGO, PENDIENTE, ANULADO |
| Types.AllEstados | types.ts:1-6 | the enumeration's values are exactly four, pairwise distinct, cover every status, first COBRADO and last ANULADO |
| Types.FromValue | types.ts:2-5 | looking a string up among the values finds a status whose value is that string, or reports that no status has it |
| Types.ValueRoundTrip | types.ts:2-5 | every status comes back from the trip to its string value and back |
| Types.ValueInjective | types.ts:2-5 | two statuses have the same string value if and only if they are the same status |
| JsText.LowerChar | components/Dashboard.tsx:25-30 | lower-casing a character yields no upper-case ASCII letter, changes the character exactly when it is one, and then moves it by 32 |
| JsText.Lower | components/Dashboard.tsx:25-30 | `toLowerCase` keeps the length and lower-cases each character in place |
| JsText.LowerIdempotent | components/Dashboard.tsx:25-30 | lower-casing twice is lower-casing once |
| JsText.Includes | components/Dashboard.tsx:27-30 | `includes` holds exactly when the needle occurs at some position of the string |
| JsText.EmptyIncluded | components/Dashboard.tsx:27-30 | the empty string is included in every string |
| JsText.StrLess | components/DataTable.tsx:40-43 | JavaScript's `<` on strings: a string is never below an equal one, and a proper prefix is below the longer string |
| JsText.StrLessIrreflexive | components/DataTable.tsx:40-43 | no string is below itself under JavaScript's `<` |
| JsText.StrLessTransitive | components/DataTable.tsx:40-43 | JavaScript's `<` on strings is transitive |
| JsText.StrLessTotal | components/DataTable.tsx:40-43 | of two different strings, one is below the other |
| JsText.StrLessAsymmetric | components/DataTable.tsx:40-43 | two strings are never each below the other |
| StableSort.InsertionSortPermutes | components/DataTable.tsx:37-39 | the sort only rearranges: same multiset and same length as its input |
| StableSort.InsertionSortSorted | components/DataTable.tsx:39 | under any comparator with the sign and transitivity laws, no element comes before one the comparator puts ahead of it |
| StableSort.InsertionSortStable | components/DataTable.tsx:39 | elements that tie keep their input order: for every value, the run of elements tied with it is the same before and after |
| StableSort.InsertSplits | components/DataTable.tsx:39 | inserting into a sorted prefix places the element right behind the last element that does not compare greater |
| StableSort.InsertInPlace | components/DataTable.tsx:39 | one in-place insertion step leaves the prefix equal to the functional insertion and the rest of the array unchanged |
| StableSort.SortInPlace | components/DataTable.tsx:37-39 | the in-place sort leaves the array equal to the insertion sort of its old contents |
| DataTable.KeyOf | components/DataTable.tsx:40-43 | `row[key]` reads the date and the amount as numbers and the three text columns and the status as strings, the status by its string value |
| DataTable.KeyLess | components/DataTable.tsx:40-43 | `<` between two values of one column only holds between different values of the same kind |
| DataTable.KeyLessTotal | components/DataTable.tsx:40-45 | two values of one column are equal or one is below the other |
| DataTable.Compare | components/DataTable.tsx:39-47 | the comparator is zero exactly when the two rows hold the same value in the sort column; it is negative exactly when the first row's value is below (ascending) or above (descending) the second's |
| DataTable.RowComparatorIsComparator | components/DataTable.tsx:39-47 | for every sort configuration the comparator obeys the sign and transitivity laws a stable sort expects |
| DataTable.SortRows | components/DataTable.tsx:36-50 | `sortedData` has as many rows as the data and is a permutation of it |
| DataTable.SortRowsCorrect | components/DataTable.tsx:36-50 | the sorted rows are a permutation of the input; they are non-decreasing in the sort column when ascending and non-increasing when descending; equal keys keep their input order |
| DataTable.DescendingIsNotReversedAscending | components/DataTable.tsx:39-47 | two different rows with the same date stay in input order under both directions, so descending is not the reverse of ascending |
| DataTable.StatusSortsAlphabetically | components/DataTable.tsx:40-43 | by status, a row sorts before another exactly when its status comes first alphabetically: ANULADO, COBRADO, IMPAGO, PENDIENTE |
| DataTable.TotalPages | components/DataTable.tsx:67 | the page count is the least whole number of fifteen-row pages holding all rows, and it is zero exactly when there are no rows |
| DataTable.SliceIndex | components/DataTable.tsx:64 | `slice` resolves any relative index to a position between 0 and the length |
| DataTable.JsSlice | components/DataTable.tsx:64 | `slice` returns at most the whole list; for 0 <= start <= end it is the contiguous piece from start to end clipped to the length; from a negative start to 0 it is empty |
| DataTable.Page | components/DataTable.tsx:61-65 | a page holds at most 15 rows; from page 1 on it is the contiguous slice from (page-1)*15 to page*15 clipped to the rows; page 0 is empty |
| DataTable.PageLength | components/DataTable.tsx:61-67 | every page before the last is full, the last holds the remainder and is not empty, and pages beyond the last are empty |
| DataTable.PageWithinRows | components/DataTable.tsx:61-65 | every row on a page is one of the table's rows |
| DataTable.PagesFromSuffix | components/DataTable.tsx:61-67 | the pages from any page on, joined, are the rows from that page's first position on |
| DataTable.AllPagesReproduceRows | components/DataTable.tsx:61-67 | joining pages 1 to totalPages gives back the sorted rows, each exactly once |
| DataTable.ShownRange | components/DataTable.tsx:131 | from page 1 on, in "Mostrando a a b" the first position is at least 1 and the last at most the row count, the page is exactly the rows from a to b, and its length is b - a + 1 (or 0) |
| DataTable.PreviousPage | components/DataTable.tsx:125 | "previous" never goes below page 1, goes back one page from above page 1 and stays at 1 otherwise |
| DataTable.NextPage | components/DataTable.tsx:126 | "next" as written never passes totalPages, advances one page before the last and lands on totalPages from the last page or beyond |
| DataTable.RequestedSort | components/DataTable.tsx:52-57 | `requestSort(key)` always sets the key to `key`; the direction becomes descending exactly when `key` was the key and the direction ascending |
| DataTable.RequestSortAlternates | components/DataTable.tsx:52-57 | two clicks on the same header from ascending come back to ascending; after the first click the directions alternate; a click on another header sorts ascending |
| DataTable.DataTableState.constructor | components/DataTable.tsx:32-33 | the table starts on page 1, sorted by date, newest first |
| DataTable.DataTableState.RequestSort | components/DataTable.tsx:52-59 | a header click sets the configuration `requestSort` computes and goes back to page 1 |
| DataTable.DataTableState.Previous | components/DataTable.tsx:125 | the "previous" button moves to `PreviousPage` of the old page, is a no-op on page 1, and touches nothing but the page |
| DataTable.DataTableState.Next | components/DataTable.tsx:126 | the "next" button is a no-op on the last page and otherwise moves to the clamped next page; it touches nothing but the page and keeps the page at 1 or more |
| DataTable.DataTableState.SortedData | components/DataTable.tsx:36-50 | sorting a fresh copy in place yields the stable sort of the rows under the current configuration, a permutation of them, and leaves the input untouched |
| DataTable.DataTableState.CurrentTableData | components/DataTable.tsx:61-65 | the rows shown are the current page of the sorted rows, at most 15 |
| DataTable.NextOnEmptyTableHidesLaterRows | components/DataTable.tsx:126 | as written, "next" is enabled on an empty table and moves to page 0, which shows nothing once rows come back although there is then a page 1 |
| DataTable.NextPageClamped | components/DataTable.tsx:126 | the corrected "next" never goes below page 1, advances one page before the last and lands on the last page from the last page or beyond |
| DataTable.ClampedNextShowsRows | components/DataTable.tsx:61-67 | with the clamp, "next" from any page of a non-empty table, including a page beyond the last one left behind when the filtered rows shrank, lands on a page showing between 1 and 15 rows |
| DataTable.ClampedNextRecoversFromEmpty | components/DataTable.tsx:126 | with the clamp, "next" on an empty table stays on page 1, and that page shows rows as soon as any come back |
| Dashboard.MatchesSearch | components/Dashboard.tsx:25-30 | an empty term matches every record, and a term longer than all four searched fields matches none |
| Dashboard.MatchesEmpresa | components/Dashboard.tsx:32 | "all" lets every record through; any other value exactly when it equals the record's company |
| Dashboard.MatchesEstado | components/Dashboard.tsx:33 | any value other than "all" lets a record through exactly when it is the string value of the record's status |
| Dashboard.Matches | components/Dashboard.tsx:35 | the initial filters let every record through, and a selector that is not on "all" pins the record's company or status |
| Dashboard.RelaxingFilterKeepsRecord | components/Dashboard.tsx:26-35 | setting any one filter back to its initial value never loses a record |
| Dashboard.Filter | components/Dashboard.tsx:24 | `filter` returns no more elements than it got, and an element is in the result exactly when it is in the input and passes |
| Dashboard.FilterSelection | components/Dashboard.tsx:24 | `filter` keeps order and drops nothing that passes: its result is the input read at strictly increasing positions that include every passing position |
| Dashboard.SkipFirst | components/Dashboard.tsx:24 | when the first element fails, a selection from the rest, moved one place, is a selection of the whole list |
| Dashboard.FilterKeepsAll | components/Dashboard.tsx:24 | a filter that every element passes returns the whole input |
| Dashboard.FilteredFacturas | components/Dashboard.tsx:23-37 | the filtered list is no longer than the records, and a record is in it exactly when it was loaded and passes search, company and status filters |
| Dashboard.FilteredSelection | components/Dashboard.tsx:23-37 | the filtered list is the records read at strictly increasing positions, and those positions include every position whose record passes: order is kept and nothing matching is dropped |
| Dashboard.ShiftSelection | components/Dashboard.tsx:24 | a selection from the elements after the first, moved one place, selects from the whole list everything but the first |
| Dashboard.PrependFirst | components/Dashboard.tsx:24 | a passing first element followed by such a selection is a selection of the whole list |
| Dashboard.InitialFiltersKeepAll | components/Dashboard.tsx:14-37 | with an empty search and both selectors on "all", the filtered list is the whole input |
| Dashboard.SearchIgnoresCase | components/Dashboard.tsx:25-30 | the search gives the same answer for a term and for its lower-cased form |
| Dashboard.SearchFindsSubstring | components/Dashboard.tsx:25-30 | a non-empty term matches exactly when its lower-cased form occurs in the lower-cased client name, company, concept or invoice number |
| Dashboard.SearchScenario | components/Dashboard.tsx:25-30 | a record with client "ACME Corp" passes the search "acme" with both selectors on "all" |
| Dashboard.EmpresaFilterIsCaseSensitive | components/Dashboard.tsx:32 | the company filter compares exactly: "Acme" selects the company "Acme" and "acme" does not |
| Dashboard.StatusFilterSelects | components/Dashboard.tsx:33 | choosing a status's value in the status filter keeps exactly the records with that status |
| Dashboard.Without | components/Dashboard.tsx:115 | removing a status from a list keeps exactly the other statuses of the list, and changes nothing when the status is absent |
| Dashboard.StatusOptions | components/Dashboard.tsx:115 | the status selector offers COBRADO, IMPAGO, PENDIENTE in that order, and never ANULADO |
| Dashboard.EstadoFilterValues | components/Dashboard.tsx:114-115 | the status selector can hold "all", "COBRADO", "IMPAGO", "PENDIENTE" |
| Dashboard.AnuladoOnlyUnderAll | components/Dashboard.tsx:114-115 | an ANULADO record passes the status filter only while it is on "all" |
| Dashboard.Empresas | components/Dashboard.tsx:19 | the company column has one entry per record, each that record's company |
| Dashboard.Distinct | components/Dashboard.tsx:19-20 | `Array.from(new Set(...))` holds the same values as its input, with no duplicates |
| Dashboard.NoDuplicatesCount | components/Dashboard.tsx:19-20 | in a list without duplicates every value occurs at most once |
| Dashboard.DuplicateCount | components/Dashboard.tsx:19-20 | a value at two positions occurs at least twice |
| Dashboard.PermutationKeepsNoDuplicates | components/Dashboard.tsx:20 | sorting a list without duplicates leaves none |
| Dashboard.StringCompare | components/Dashboard.tsx:20 | the default `sort()` comparator is zero exactly on equal strings and negative exactly when the first is below the second |
| Dashboard.StringCompareIsComparator | components/Dashboard.tsx:20 | the default string order obeys the sign and transitivity laws a stable sort expects |
| Dashboard.SortedDistinctIsStrict | components/Dashboard.tsx:20 | sorting distinct strings makes them strictly ascending and keeps the same values |
| Dashboard.EmpresasMembers | components/Dashboard.tsx:19 | a company is in the company column exactly when some record has it |
| Dashboard.UniqueEmpresas | components/Dashboard.tsx:18-21 | the offered companies are strictly ascending (so without duplicates), and a company is offered exactly when some loaded record has it |
| Dashboard.OfferedEmpresaSelectsSome | components/Dashboard.tsx:18-37 | every company the selector offers picks out at least one record while the search is empty and the status is "all" |
| Dashboard.PendienteDeCobro | components/Dashboard.tsx:61 | "Pendiente de Cobro" plus what was collected is what was billed |
| Dashboard.PendienteIsNotImpago | components/Dashboard.tsx:61 | the figure does not depend on `totalImpago`: with 100 collected, 50 unpaid and 30 pending of 180 billed it shows 80 |
| Dashboard.ShownRowsMatchFilters | components/Dashboard.tsx:118 | every row the table shows on any page is a loaded record that passes all three filters |

## Left out

- The aggregation hook that loads the records and computes the KPIs, the monthly series,
  the top clients, the status counts and the available years is not part of this model.
  Its source is not available, so `KpiData`, `MonthlySales`, `ClientData` and `StatusData`
  are only record shapes. The year filter that feeds it is left out with it.
- The chart components and the KPI card are pure rendering.
- `formatCurrency` and `formatDate` are locale formatting by the runtime's `Intl` library.
- `getStatusClass` and all JSX markup are presentation.
- The React machinery is left out: `useState` setters, `useMemo` memoisation, re-rendering,
  and the loading screen shown while there are no available years.
- JavaScript floating-point numbers: amounts are integer cents, so rounding and `NaN` are
  not modelled. Dates are integer day numbers, so an invalid `Date` is not modelled.
- JsText.Lower: lower-cases ASCII letters only; full Unicode case mapping (including
  mappings that change the length) is not modelled.
- JsText.StrLess: compares characters; JavaScript compares UTF-16 code units, which orders
  characters outside the Basic Multilingual Plane differently.
- The sort configuration can also be null in the component's type. No code path ever sets
  it to null, so the model keeps it non-null.
- The engine's own sorting algorithm is not modelled: any stable sort gives the same
  output as the insertion sort used as the specification.
- The index signature of `StatusData`, which exists only to satisfy the chart library's
  types.
- DataTable.DataTableState.Next: moves with the corrected clamp of "## Findings", not with
  `Math.min(totalPages, p + 1)` as written. The as-written behaviour is `DataTable.NextPage`,
  with `DataTable.NextOnEmptyTableHidesLaterRows`.

## Findings

| source | as written | input that shows it | evidently intended | confidence | as-written member | corrected member |
|---|---|---|---|---|---|---|
| components/DataTable.tsx:126 | "next" sets the page to `Math.min(totalPages, p + 1)` and is disabled only when `currentPage === totalPages` | an empty filtered list (totalPages 0) on page 1: the button is enabled and moves to page 0; page 0 slices from -15 to 0 and is empty for any data, so when rows come back the table stays blank until a page button or a column header is clicked | the page never goes below 1 | not executed | DataTable.NextOnEmptyTableHidesLaterRows | DataTable.ClampedNextRecoversFromEmpty |
