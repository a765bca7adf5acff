# TruEstate retail sales system — a verified model

This project models the core of the TruEstate retail sales system in Dafny.

The **sales engine** answers a sales request over the stored transactions:
- search by customer name or phone number;
- multi-valued filters on region, gender, product category, tags and payment method;
- an inclusive age range;
- a date range from the instant the start date parses to, up to the last millisecond of the server's local day that holds the instant the end date parses to;
- a sort on date, quantity or customer name;
- page-based pagination, with a page count of ⌈total / page size⌉.

It also lists the **filter options**: the distinct values of each filterable field, sorted.

The **client** side has four parts:
- the screen-state hook: filters, sort, current page, request building and response handling;
- the filter panel's change handlers;
- the sort selector's `field:order` encoding;
- the pagination bar's page list with ellipses and prev/next arrows.

The **CSV import script** turns rows into sale records, splits the tags column, and writes the records in batches of 20000.

Modules (one file each):

| module | file | models |
|---|---|---|
| `Wrappers` | wrappers.dfy | `Option` and `Result` |
| `Text` | text.dfy | lower-casing, substring search, code-point string order, `split`, `join`, `trim` |
| `Numbers` | numbers.dfy | JavaScript `parseInt`, `parseInt(x) \|\| d`, integer printing, ceiling division |
| `Seqs` | seqs.dfy | flattening a list of batches |
| `SaleRecord` | sale.dfy | the sale record |
| `Ordering` | ordering.dfy | sort keys, direction, a sort and what "sorted" means |
| `Paging` | paging.dfy | `skip`/`limit` windows and 1-based pages |
| `SalesService` | query.dfy | request normalisation, matching, `getSalesData` |
| `SalesServiceFacts` | query_facts.dfy | the engine's promised behaviour per parameter |
| `SalesOptions` | options.dfy | `getFilterOptions` |
| `PaginationBar` | pagination_bar.dfy | `Pagination.jsx` |
| `SalesHook` | sales_hook.dfy | `useSalesData` |
| `FilterPanel` | filter_panel.dfy | `FilterPanel.jsx` handlers |
| `SortingDropdown` | sorting_dropdown.dfy | `SortingDropdown.jsx` |
| `ImportSales` | import_sales.dfy | `importSales.js` |

Some behaviour comes from outside the code, and the model fixes it explicitly:
- The database is an in-memory sequence of `Sale` records. `find`, `countDocuments` and `distinct` become filters and folds over it.
- Date parsing (`new Date(text)`) is a parameter (`Calendar.parseDate`), and so is the server's UTC offset. Day arithmetic uses a fixed offset.
- A date bound the database cannot cast fails the request (`InvalidDate`). So does a page that gives a negative skip (`NegativeSkip`).
- A negative page size acts as a limit of its magnitude, as a negative `limit` does in MongoDB.
- Parameter encoding: the client's lists arrive at the engine as lists and an empty list arrives as no parameter. Scalars arrive as strings.
- The import script's `Number()` and `new Date()` coercions are parameters (`Coercions`).

Four behaviours of the code are easy to misread. The model follows the code in each:
- Tags: the import script splits the tags cell at `,` and trims each piece, keeping empty pieces (backend/scripts/importSales.js:43-45). So `"a,,b"` gives three tags, the middle one empty (`ImportSales.NormalizeTags`).
- Filter options: each list is the field's `distinct` values, sorted (backend/src/services/salesService.js:8-19). Nothing drops the empty value, so it is listed when a record holds one (`SalesOptions.FilterOptionsSpec`).
- Customer-name sort: the sort object names the field with direction 1 or -1 and no collation (backend/src/services/salesService.js:128-144, 151). The order is the database's default binary order, which is case-sensitive.
- Page below 1: the page is `parseInt(page) || 1` (backend/src/services/salesService.js:50), so page 0 falls back to page 1. A negative page gives a negative skip (backend/src/services/salesService.js:152), which the database rejects (`SalesServiceFacts.NegativePageFails`).

## Model

| member | source | states |
|---|---|---|
| SalesService.SortSpecOf | backend/src/services/salesService.js:127-144 | only `date`, `quantity` and `customerName` select a sort, each on its own key; the sort is descending exactly when the order is `desc` |
| SalesService.EndOfDay | backend/src/services/salesService.js:120-123 | the end bound is at or after the given time, on the same local day, and the next millisecond is on the next day |
| SalesService.Filter | backend/src/services/salesService.js:147-150 | the matching records never outnumber the store |
| SalesService.FilterCounts | backend/src/services/salesService.js:147-150 | each matching record is kept as often as the store holds it and every other record is dropped; membership is "in the store and matches" |
| SalesService.FilterIdempotent | backend/src/services/salesService.js:147-150 | filtering the result again changes nothing |
| SalesService.Ordered | backend/src/services/salesService.js:150-151 | the result is a permutation of the matches, sorted when a sort applies |
| SalesService.RunQueryData | backend/src/services/salesService.js:147-153 | a page holds at most a page size of records, each a matching record of the store, ordered by the requested key |
| SalesService.GetSalesData | backend/src/services/salesService.js:30-168 | a request succeeds only if its parameters normalise |
| SalesService.NormalizeFails | backend/src/services/salesService.js:114-125 | normalising fails exactly when a date bound is not a date |
| SalesService.GetSalesDataFails | backend/src/services/salesService.js:114-153 | a request fails exactly for an unreadable date bound or a negative skip |
| SalesService.GetSalesDataSpec | backend/src/services/salesService.js:146-163 | a successful response counts every match, reports the page, the page size and ⌈total / page size⌉, and returns at most a page of sorted matches |
| SalesServiceFacts.PagingDefaults | backend/src/services/salesService.js:49-51 | page and page size default to 1 and 10 when missing, not a number or zero, and are the parsed value otherwise; the page size is never zero |
| SalesServiceFacts.MultiValueFilter | backend/src/services/salesService.js:64-74 | a scalar multi-valued filter passes everything when missing, empty or an empty list; a single string is a one-element list; otherwise the value must be listed |
| SalesServiceFacts.TagsFilter | backend/src/services/salesService.js:102-106 | the tags filter passes a record exactly when one of its tags is requested, or when no tag is requested |
| SalesServiceFacts.AgeRangeFilter | backend/src/services/salesService.js:76-94 | both age bounds are inclusive; a missing, empty or non-numeric bound is dropped |
| SalesServiceFacts.EndOfDayInclusive | backend/src/services/salesService.js:120-123 | a time is at or before the end bound exactly when its local day is not later than the bound's day |
| SalesServiceFacts.SameDayRange | backend/src/services/salesService.js:114-125 | the same date as start and end admits exactly the times from the instant the date parses to through the end of that instant's local day |
| SalesServiceFacts.SameDayLocalMidnight | backend/src/services/salesService.js:114-125 | when the date parses to local midnight, the same date as start and end admits exactly the times of that local day |
| SalesServiceFacts.DateOnlyRangeEast | backend/src/services/salesService.js:117-123 | ahead of UTC, a date parsed to UTC midnight admits only the part of its local day from UTC midnight on; the millisecond before, on the same local day, is left out |
| SalesServiceFacts.DateOnlyRangeWest | backend/src/services/salesService.js:117-123 | behind UTC, a date parsed to UTC midnight admits only the `-offset` ms from UTC midnight to the end of the previous local day |
| SalesServiceFacts.InvalidDateFails | backend/src/services/salesService.js:117-123 | an unreadable start or end date fails the whole request with an invalid-date error |
| SalesServiceFacts.SearchFilter | backend/src/services/salesService.js:56-62 | an empty search passes every record; otherwise a record passes exactly when the lower-cased text occurs in its lower-cased name or phone number |
| SalesServiceFacts.FilterNoConstraint | backend/src/services/salesService.js:53-125 | criteria with no active dimension keep the whole store in order |
| SalesServiceFacts.NoParamsReturnsFirstPage | backend/src/services/salesService.js:49-163 | a request with no parameters returns the first ten stored records, a total of every record, page 1, size 10 and ⌈n / 10⌉ pages |
| SalesServiceFacts.TotalPagesZeroIff | backend/src/services/salesService.js:161 | with a positive page size the page count is zero exactly when nothing matches |
| SalesServiceFacts.QueryReturnsPage | backend/src/services/salesService.js:150-153 | with a positive page and page size, the data is the `page`-th slice of the ordered matches |
| SalesServiceFacts.PagesCoverMatches | backend/src/services/salesService.js:152-161 | pages 1 to `totalPages`, concatenated, list every ordered match exactly once, in order |
| SalesServiceFacts.NegativePageFails | backend/src/services/salesService.js:50-52 | a negative page number gives a negative skip, which fails instead of returning data |
| Paging.WindowAt | backend/src/services/salesService.js:152-153 | the window's `i`-th record is the record `skip + i` places into the ordered result |
| Paging.PagesUpToPrefix | backend/src/services/salesService.js:152-153 | the first `k` pages together are exactly the first `k × size` records |
| Paging.PagesPartition | backend/src/services/salesService.js:152-161 | pages 1 to ⌈n / size⌉ concatenate back to the whole result |
| Paging.PageWithinCountNonEmpty | backend/src/services/salesService.js:161 | every page up to the page count holds at least one record |
| Paging.PagePastCountEmpty | backend/src/services/salesService.js:161 | every page past the page count is empty |
| Ordering.PrecedesTotal | backend/src/services/salesService.js:128-144 | any two records are ordered one way or the other under a sort |
| Ordering.PrecedesTransitive | backend/src/services/salesService.js:128-144 | the order of a sort is transitive |
| Ordering.SortBy | backend/src/services/salesService.js:151 | sorting keeps exactly the same records |
| Ordering.SortBySorted | backend/src/services/salesService.js:151 | the sorted output is sorted |
| Ordering.SortedKeys | backend/src/services/salesService.js:130-139 | in a sorted result keys never decrease (ascending) or never increase (descending) |
| Ordering.SortedSlice | backend/src/services/salesService.js:151-153 | a page cut from a sorted result is sorted |
| Numbers.OrDefault | backend/src/services/salesService.js:50-51 | `parseInt(x) \|\| d` gives the default exactly for NaN and zero |
| Numbers.ParseIntShowInt | frontend/src/hooks/useSalesData.js:41-46 | `parseInt` reads back an integer the client printed into the query string, even when other text follows |
| Numbers.ParseIntSkipsWhitespace | backend/src/services/salesService.js:50-51 | `parseInt` ignores leading whitespace |
| Numbers.ParseIntNoDigits | backend/src/services/salesService.js:50-51 | text with no digit after its leading whitespace and optional sign reads as NaN |
| Numbers.CeilDiv | backend/src/services/salesService.js:161 | `Math.ceil(total / size)`: the least count of pages of that size that holds the total |
| SalesOptions.InsertUnique | backend/src/services/salesService.js:8-19 | inserting a value into the options adds exactly that value |
| SalesOptions.SortedDistinct | backend/src/services/salesService.js:8-19 | the options list holds exactly the values of its input |
| SalesOptions.SortedDistinctSorted | backend/src/services/salesService.js:15-19 | the options list is strictly ascending, so free of duplicates |
| SalesOptions.StrictlySortedUnique | backend/src/services/salesService.js:15-19 | a strictly ascending list is fixed by its elements, so any way of deduplicating and sorting gives the same list |
| SalesOptions.Column | backend/src/services/salesService.js:8-11 | a column holds exactly the values some record has in that field |
| SalesOptions.AllTags | backend/src/services/salesService.js:12 | the tag column holds exactly the tags some record carries |
| SalesOptions.FilterOptionsSpec | backend/src/services/salesService.js:6-20 | each scalar options list is strictly ascending and holds exactly the values some stored record has |
| SalesOptions.FilterOptionsTags | backend/src/services/salesService.js:12-19 | the tags list is strictly ascending and holds exactly the tags some stored record carries |
| PaginationBar.RangeItems | frontend/src/components/Pagination.jsx:10-16 | the window lists the pages from its low to its high end, one each, in order |
| PaginationBar.PageNumbers | frontend/src/components/Pagination.jsx:5-33 | the list starts with page 1 and ends with the last page |
| PaginationBar.Render | frontend/src/components/Pagination.jsx:35-44 | nothing is shown exactly when there is at most one page; otherwise the bar lists the page numbers |
| PaginationBar.WindowInside | frontend/src/components/Pagination.jsx:10-13 | the window lies strictly between the first and the last page |
| PaginationBar.PageNumbersDots | frontend/src/components/Pagination.jsx:18-30 | a leading ellipsis appears exactly when the current page minus 2 exceeds 2; a trailing one exactly when the current page plus 2 is below the last page minus 1 |
| PaginationBar.PageNumbersIncreasing | frontend/src/components/Pagination.jsx:5-33 | every listed page exists, and listed pages strictly increase |
| PaginationBar.PageNumbersNearby | frontend/src/components/Pagination.jsx:10-16 | every page within two of the current page is listed |
| PaginationBar.WindowListed | frontend/src/components/Pagination.jsx:10-24 | every page of the window is listed |
| PaginationBar.PageNumbersDotsHide | frontend/src/components/Pagination.jsx:18-30 | an ellipsis sits between two listed pages and stands for at least one page |
| PaginationBar.PageNumbersOmitted | frontend/src/components/Pagination.jsx:5-33 | a page that is not listed is covered by an ellipsis |
| PaginationBar.CurrentListedOnce | frontend/src/components/Pagination.jsx:48-61 | the current page is listed exactly once, so exactly one button is active |
| PaginationBar.SinglePageList | frontend/src/components/Pagination.jsx:35 | with a single page the list would name page 1 twice, which is why the bar is hidden |
| PaginationBar.ArrowsStayInRange | frontend/src/components/Pagination.jsx:39-44 | previous is disabled exactly on page 1 and next exactly on the last page; an enabled arrow never leaves the existing pages |
| FilterPanel.Remove | frontend/src/components/FilterPanel.jsx:10 | the filtered list has no occurrence of the value and keeps every other value with its multiplicity |
| FilterPanel.RemoveAbsent | frontend/src/components/FilterPanel.jsx:10 | removing a value that is not there changes nothing |
| FilterPanel.RemoveAppend | frontend/src/components/FilterPanel.jsx:10 | removal works piecewise, so the remaining values keep their relative order |
| FilterPanel.Toggle | frontend/src/components/FilterPanel.jsx:7-11 | a selected value is dropped and an unselected one is appended at the end |
| FilterPanel.ToggleTwice | frontend/src/components/FilterPanel.jsx:7-11 | toggling an unselected value twice gives back the same list |
| FilterPanel.ToggleOthers | frontend/src/components/FilterPanel.jsx:8-11 | toggling keeps every other value with its multiplicity; a missing list counts as empty |
| FilterPanel.MultiSelectChange | frontend/src/components/FilterPanel.jsx:13 | a checkbox sends a patch for its own key only, holding the toggled list |
| FilterPanel.InputChange | frontend/src/components/FilterPanel.jsx:16-18 | an input sends its value unchanged, under its own key only |
| FilterPanel.CheckboxChangesOneFilter | frontend/src/components/FilterPanel.jsx:7-14 | a checkbox changes only its own filter, returns to page 1, keeps the sort and keeps the filters well typed |
| FilterPanel.InputChangesOneFilter | frontend/src/components/FilterPanel.jsx:16-18 | an input changes only its own text filter, to exactly the typed value, and returns to page 1 |
| SalesHook.InitialFiltersWellTyped | frontend/src/hooks/useSalesData.js:15-26 | the initial filters name every key, with an empty list or empty text as the key demands |
| SalesHook.InitialState | frontend/src/hooks/useSalesData.js:5-33 | no data, empty pagination of size 10, no sort with ascending order, page 1, no error |
| SalesHook.UpdateFilters | frontend/src/hooks/useSalesData.js:83-86 | the patched keys join the filters and the page returns to 1 |
| SalesHook.UpdateFiltersOnly | frontend/src/hooks/useSalesData.js:83-86 | a filter update changes exactly the given keys and keeps the sort, data, pagination and error |
| SalesHook.UpdateFiltersWellTyped | frontend/src/hooks/useSalesData.js:83-86 | a well-typed patch keeps the filters well typed |
| SalesHook.UpdateSorting | frontend/src/hooks/useSalesData.js:89-92 | the new sort is stored, a missing order means ascending, and the page returns to 1 |
| SalesHook.ClearFilters | frontend/src/hooks/useSalesData.js:95-109 | clearing returns to page 1 and keeps the sort |
| SalesHook.SortAndClearIndependent | frontend/src/hooks/useSalesData.js:89-109 | a sort change keeps the filters; clearing keeps the sort and restores the initial filters |
| SalesHook.ClearFiltersForgets | frontend/src/hooks/useSalesData.js:83-109 | clearing after a filter update is the same as clearing at once |
| SalesHook.SetPage | frontend/src/hooks/useSalesData.js:33 | the page is set to the requested one and nothing else in the state changes |
| SalesHook.BuildRequest | frontend/src/hooks/useSalesData.js:41-46 | the request carries the sort, the printed current page and the printed page size of the last response |
| SalesHook.ListFiltersReachEngine | frontend/src/hooks/useSalesData.js:41-46 | each list filter reaches the engine as its selected values, and as no filter when none are selected |
| SalesHook.TextFiltersReachEngine | frontend/src/hooks/useSalesData.js:41-46 | the search text, age bounds and start date reach the engine as given, empty text meaning no filter, and an end date gives an end bound exactly when it is non-empty |
| SalesHook.RequestPageReadBack | frontend/src/hooks/useSalesData.js:41-46 | the engine reads back the page and page size the client asked for, unless zero |
| SalesHook.SortingReachesEngine | frontend/src/hooks/useSalesData.js:89-92 | a known sort key chosen without an order reaches the engine as an ascending sort on page 1 |
| SalesHook.InitialRequestUnfiltered | frontend/src/hooks/useSalesData.js:15-26 | with the initial filters no list filter is sent and every text filter is empty |
| SalesHook.ApplyResponse | frontend/src/hooks/useSalesData.js:48-71 | a fetch never changes the filters, the sort or the current page |
| SalesHook.ApplyResponseFallback | frontend/src/hooks/useSalesData.js:51-71 | only a body with both data and pagination is shown; anything else leaves no data and the initial pagination; the error is set exactly when the fetch threw, with a generic message when it had none |
| SalesHook.EngineResponseShown | frontend/src/hooks/useSalesData.js:48-53 | a successful engine response becomes the screen's data and pagination with no error |
| SortingDropdown.Format | frontend/src/components/SortingDropdown.jsx:10 | the shown value is the field, a colon, then the order |
| SortingDropdown.Parse | frontend/src/components/SortingDropdown.jsx:6 | a value with no colon is a field with no order |
| SortingDropdown.ParseFormat | frontend/src/components/SortingDropdown.jsx:6-10 | splitting a formatted value gives back its field and order when neither holds a colon |
| SortingDropdown.OptionChoice | frontend/src/components/SortingDropdown.jsx:22-26 | every non-empty option is a known field and a known order joined by a colon |
| SortingDropdown.OptionsRoundTrip | frontend/src/components/SortingDropdown.jsx:6-26 | every non-empty option parses to a known field and order, and formatting them gives back the option |
| SortingDropdown.NoneOptionParse | frontend/src/components/SortingDropdown.jsx:21 | the `None` option parses to an empty field and no order |
| SortingDropdown.UnsortedValueMatchesNoOption | frontend/src/components/SortingDropdown.jsx:10-26 | with no sort chosen the selector's value is `:asc`, which no option has |
| SortingDropdown.ChoiceReachesEngine | frontend/src/components/SortingDropdown.jsx:5-8 | choosing an option makes the engine sort by its field in its direction; `None` leaves the records unsorted |
| ImportSales.NormalizeTags | backend/scripts/importSales.js:43-45 | a missing or empty cell gives no tags; otherwise there is one tag per comma plus one |
| ImportSales.TagsArePieces | backend/scripts/importSales.js:44 | each tag is the trimmed text between consecutive commas, with no comma and no whitespace at either end |
| ImportSales.TagsRoundTrip | backend/scripts/importSales.js:43-45 | tags written out with commas read back as the same list, unless one holds a comma or edge whitespace or the list is the single empty tag |
| ImportSales.ToSale | backend/scripts/importSales.js:27-61 | a row's record carries the tags read from its Tags cell |
| ImportSales.OnRowHandled | backend/scripts/importSales.js:24-68 | after each row, the writes followed by the buffer are the records seen, in order; every write was a full batch; the buffer is not full; the count matches the writes |
| ImportSales.OnEndWritesAll | backend/scripts/importSales.js:73-77 | at the end every record was written once and in order, with all writes but the last full and the count equal to the record count |
| ImportSales.ImportAll | backend/scripts/importSales.js:14-82 | a whole import writes the converted rows in order, in batches of 20000 with a shorter last one, as ⌈rows / 20000⌉ writes, and counts every row |
| Text.ContainsIff | backend/src/services/salesService.js:59-60 | substring search holds exactly when the text occurs at some position |
| Text.Split | frontend/src/components/SortingDropdown.jsx:6 | splitting gives one piece more than there are separators |
| Text.JoinSplit | backend/scripts/importSales.js:44 | joining the pieces of a split gives back the string, and no piece holds the separator |
| Text.SplitJoin | frontend/src/components/SortingDropdown.jsx:6-10 | splitting a join of separator-free pieces gives back the pieces |
| Text.TrimSpec | backend/scripts/importSales.js:44 | the trimmed text is the infix left after removing whitespace from both ends, and it has no whitespace at either end |
| Text.TrimKeeps | backend/scripts/importSales.js:44 | text with no whitespace at either end is its own trim |
| Text.StrLeTotal | backend/src/services/salesService.js:15-19 | any two strings are ordered one way or the other |
| Text.StrLeTransitive | backend/src/services/salesService.js:15-19 | string order is transitive |
| Text.StrLeAntisymmetric | backend/src/services/salesService.js:15-19 | two strings each at most the other are equal |
| Seqs.FlattenAppend | backend/scripts/importSales.js:63-68 | one more write appends its records after those written before |

## Left out

- Database access (`find`, `countDocuments`, `distinct`, `insertMany`) is replaced by computations over an in-memory sequence. The model has no connection handling, no timeouts and no partial insert failure. `insertMany` with `ordered: false` is assumed to write every record.
- Search is substring matching on lower-cased text. The source passes the search text to MongoDB as a regular expression, so regex metacharacters are not modelled.
- Lower-casing and whitespace cover ASCII letters and a fixed set of whitespace characters. Full Unicode case folding and Unicode whitespace classes are not modelled.
- String order compares code points. MongoDB's default binary order compares UTF-8 bytes, which is the same order. JavaScript's `sort()` in `getFilterOptions` (backend/src/services/salesService.js:15-19) compares UTF-16 code units, which differs from code-point order only when a string holds characters beyond the Basic Multilingual Plane.
- `new Date(text)` and the import script's `Number()` are taken as parameters. Daylight-saving changes are not modelled: a day is always 86 400 000 ms at a fixed UTC offset.
- ImportSales.ToSale: the `Coercions` parameters are assumed to return numbers. `Number()` gives NaN for a non-numeric cell (a blank cell gives 0), and may give a fractional age or quantity. The model cannot represent either, because `age` and `quantity` are integers and the coercions have no NaN result. Invalid dates are not representable for the same reason.
- `parseInt` reads unbounded integers. Its loss of precision beyond 2^53 is not modelled.
- Ordering.SortBy: records with equal keys may come in any order, so the contract does not promise stability; MongoDB does not either.
- SalesServiceFacts.PagesCoverMatches: the pages are cut from one fixed order of the matches. MongoDB may order records with equal sort keys differently in each separate `skip`/`limit` request, so across requests a tied record can repeat or be missed. The lemma does not cover that.
- SalesServiceFacts.SameDayRange, SalesServiceFacts.SameDayLocalMidnight: a date-only text such as `2024-03-05` parses to UTC midnight, but the end bound is set to the end of the server's local day. On a server not at UTC the range is therefore not the local day the date names (`SalesServiceFacts.DateOnlyRangeEast`, `SalesServiceFacts.DateOnlyRangeWest`). The local-day promise holds only when the date parses to local midnight.
- The HTTP layer (routes, controllers, JSON encoding and error responses), `api.js` and the query-string encoder are not modelled. The encoder is assumed to send a client list as a list, and an empty list as no parameter. A scalar parameter sent as an array is not modelled.
- SalesHook: the loading flag, React effect scheduling and re-render timing, and the `useFilterOptions` hook are left out. A fetch is modelled as a request followed by the state it leaves.
- FilterPanel: the checkbox handler is modelled only for list filters, and the input handler only for text filters. Arbitrary patch keys are not modelled.
- ImportSales: file streaming, pause/resume and process exit are left out. Rows are a given sequence of already-parsed CSV rows. A missing cell in a text column is stored as empty text; the script stores `undefined` there.
- Rendering (markup, CSS, labels and the collapse toggle of the filter panel) is not modelled. The statistics components are not modelled either.
