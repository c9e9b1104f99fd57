# Courier job listing: the Index page pipeline

The project is a Dafny model of the logic in the `Index` page of a courier job-listing site (`src/pages/Index.tsx`). The page holds six fixed job records and five pieces of view state:
- search text;
- location filter;
- employment-type filter;
- sort selector;
- current page.

On every render it does three things:
1. It filters the records. The title or company must contain the search text, ignoring case. The location and type must equal the chosen ones, unless the filter is `"all"`.
2. It sorts a copy of the result, by ascending id (`"newest"`) or by descending salary as `parseInt` reads it (`"salary"`).
3. It shows the slice of six cards for the current page.

Previous, Next and the page links move the page number, which is clamped to `[1, totalPages]`.

Modules:
- `JsText`: the JavaScript string operations the filter and comparator rely on.
  - `toLowerCase`, per character.
  - `includes`: a left-to-right search, proved equal to "occurs at some index".
  - `parseInt`: the leading run of decimal digits. `None` stands for NaN.
- `Jobs`: the filter predicate and `filter`, plus two declarations that are not functions and so have no row below:
  - the datatype `Job`, the record of `src/pages/Index.tsx:17-26`;
  - the constant `MockJobs`, the six records of `src/pages/Index.tsx:28-89` verbatim.
- `Ordering`: generic facts about sequences ordered by an integer key. It includes uniqueness of a sorted arrangement when the keys are distinct.
- `Sorting`: `Array.prototype.sort` with a comparator, as a stable insertion sort in place on an array. It is proved against the key the comparator compares by:
  - the result is in key order;
  - elements with equal keys keep their input order.
- `JobSort`: the comparator of `src/pages/Index.tsx:109-113`, and the sort of a fresh copy of the filtered list, so the filtered list is untouched. A NaN comparison counts as 0, as in JavaScript's `sort`.
- `Pagination`: the constant `ItemsPerPage` (`src/pages/Index.tsx:98`), `Math.ceil` as integer ceiling division, `Array.prototype.slice` with its index clamping, the page slice, and the Previous/Next clamping.
- `IndexPage`: `totalPages`, and the class `ListingPage`. The class holds the five state variables, the handlers that change them, and the derivation of the shown cards from the state.

Three points of the code's behaviour worth stating:
- The sort selector may hold any string, and any value other than `"newest"` and `"salary"` leaves the order as filtered.
- `totalPages` counts all six records, not the filtered ones.
- Changing a filter does not reset the page number.

## Model

| member | source | states |
|---|---|---|
| JsText.LowerChar | src/pages/Index.tsx:102-103 | Lower-cases A–Z and Cyrillic А–Я, Ѐ–Џ by their fixed offsets; every other character is unchanged |
| JsText.Lower | src/pages/Index.tsx:102-103 | `toLowerCase` keeps the length and lowers each character in place |
| JsText.LowerIdempotent | src/pages/Index.tsx:102-103 | Lowering twice is lowering once |
| JsText.Includes | src/pages/Index.tsx:102-103 | The empty query is always found, and a found query is no longer than the text |
| JsText.IncludesIffOccurs | src/pages/Index.tsx:102-103 | `includes` succeeds exactly when the query occurs at some index of the text |
| JsText.IncludesTransitive | src/pages/Index.tsx:102-103 | A text that includes `m` includes every string `m` includes |
| JsText.LowerIncludes | src/pages/Index.tsx:102-103 | An occurrence survives lowering both the text and the query |
| JsText.IncludesEmpty | src/pages/Index.tsx:102-103 | Every text includes the empty query |
| JsText.DigitRun | src/pages/Index.tsx:111 | The length of the longest prefix made of decimal digits |
| JsText.ParseInt | src/pages/Index.tsx:111 | `parseInt` is NaN exactly when the text does not start with a digit |
| JsText.ParseDecimal | src/pages/Index.tsx:111 | `parseInt` of a number's decimal digits followed by a non-digit gives back that number |
| Jobs.MatchesSearch | src/pages/Index.tsx:102-103 | The search test: a query found in the title or company is no longer than that field |
| Jobs.MatchesLocation | src/pages/Index.tsx:104 | `"all"` admits every record; any other value admits exactly the records in that city |
| Jobs.MatchesType | src/pages/Index.tsx:105 | `"all"` admits every record; any other value admits exactly the records of that type |
| Jobs.Matches | src/pages/Index.tsx:101-107 | A record that passes is in the chosen city and of the chosen type (unless `"all"`), and its title or company is at least as long as the query |
| Jobs.Filter | src/pages/Index.tsx:101-107 | The filtered list is never longer than its input |
| Jobs.FilterMembers | src/pages/Index.tsx:101-107 | A record is in the filtered list exactly when it is in the input and matches search, location and type |
| Jobs.FilterIsSubsequence | src/pages/Index.tsx:101-107 | The filtered list is an order-preserving subsequence of the input |
| Jobs.FilterCount | src/pages/Index.tsx:101-107 | Each record occurs in the result as often as in the input if it matches, and not at all otherwise |
| Jobs.FilterIdempotent | src/pages/Index.tsx:101-107 | Filtering the filtered list again with the same settings changes nothing |
| Jobs.ShorterQueryMatches | src/pages/Index.tsx:102-103 | A record a query finds is found by every query that query includes |
| Jobs.LongerQueryFindsFewer | src/pages/Index.tsx:101-107 | A query that includes another never finds more records |
| Jobs.RearrangedMembers | src/pages/Index.tsx:101-107 | Any rearrangement of the filtered list holds only matching input records, at most as many as the input |
| Jobs.EmptyQueryMatches | src/pages/Index.tsx:102-103 | The empty search matches every record |
| Jobs.FilterNothing | src/pages/Index.tsx:101-107 | With empty search and both filters `"all"`, the filtered list is the input |
| Jobs.FilterAllMatching | src/pages/Index.tsx:101-107 | When every record matches, filtering returns the input unchanged |
| Jobs.MockJobsAscendingIds | src/pages/Index.tsx:28-89 | The six records have strictly increasing ids |
| Jobs.SubsequenceAscendingIds | src/pages/Index.tsx:101-107 | A subsequence of a list with strictly increasing ids has strictly increasing ids |
| Jobs.FilteredAscendingIds | src/pages/Index.tsx:101-107 | Every filtered list of the six records has strictly increasing ids |
| Jobs.CourierQueryKeepsAll | src/pages/Index.tsx:28-89 | Searching "курьер" keeps all six records |
| Jobs.FilterByTypeOnly | src/pages/Index.tsx:105 | With only a type filter, a record is kept exactly when its type matches |
| Jobs.FullTimeKeepsFour | src/pages/Index.tsx:28-89 | The type filter "Полная занятость" keeps records 1, 3, 4 and 5 |
| Ordering.SortedUnique | src/pages/Index.tsx:109-113 | A key-sorted arrangement of elements that also have a strictly sorted arrangement is that arrangement |
| Ordering.PicksAllSame | src/pages/Index.tsx:109 | Listing every position of a sequence once, in any order, keeps its elements |
| Ordering.InsertStable | src/pages/Index.tsx:109 | Putting an element in front of a run of strictly larger keys keeps every key's elements in their order |
| Ordering.StableConstantKey | src/pages/Index.tsx:112 | Under a key that is the same for every element, a stable arrangement is the input itself |
| Ordering.TiedPairKeepsOrder | src/pages/Index.tsx:109 | Two elements with equal keys leave a stable sort in the order they entered |
| JobSort.SalaryValue | src/pages/Index.tsx:111 | The number `parseInt` reads from the salary, never negative, and 0 when it reads NaN |
| JobSort.SortKey | src/pages/Index.tsx:109-113 | The ascending key: the id under "newest", a key no greater than 0 (the negated salary) under "salary", and 0 for every record otherwise |
| JobSort.Compare | src/pages/Index.tsx:109-113 | The comparator is the difference of the sort keys when both records are keyed (always under "newest"). It is 0 under "salary" when either salary is NaN, and 0 under any other selector |
| Sorting.SwapDown | src/pages/Index.tsx:109 | Exchanges two neighbouring elements in place, keeping the same elements |
| Sorting.SiftDown | src/pages/Index.tsx:109 | The inner pass moves one element left past the elements the comparator puts strictly after it, shifting them one place right. It keeps the key order around the moved element, and stops at the first neighbour that does not go after it |
| Sorting.InsertAt | src/pages/Index.tsx:109 | One insertion pass extends the sorted prefix by one element, keeping each key's elements in input order |
| Sorting.InsertionSort | src/pages/Index.tsx:109 | `sort(cmp)` in place keeps the same elements. When the comparator is a key comparison on every element, the result is in key order and equal keys keep their input order (stable) |
| JobSort.SortedCopy | src/pages/Index.tsx:109 | `[...filtered].sort(cmp)` is a permutation of the filtered list. When every key parses, it is in key order and records with equal keys keep their filtered order. Under any other selector it equals the filtered list |
| JobSort.MockSalaries | src/pages/Index.tsx:28-89 | `parseInt` reads 80, 60, 70, 90, 65, 75 from the six salaries, so the salary comparator never meets NaN |
| JobSort.FilteredKeyed | src/pages/Index.tsx:101-111 | Every filtered list of the six records has salaries that parse |
| JobSort.NewestKeepsFilteredOrder | src/pages/Index.tsx:110 | Sorting by "newest" returns the filtered list itself, with strictly increasing ids |
| JobSort.SalaryDescending | src/pages/Index.tsx:111 | In salary order the parsed salaries never increase along the list |
| JobSort.SalaryKey | src/pages/Index.tsx:111 | Under "salary" a record's key is its parsed salary, negated |
| JobSort.SalaryOrder | src/pages/Index.tsx:111 | With no filter, sorting by salary shows ids 4, 1, 6, 3, 5, 2 |
| JobSort.SixInKeyOrder | src/pages/Index.tsx:111 | Six elements whose keys rank m[3] < m[0] < m[5] < m[2] < m[4] < m[1], the ranking the six parsed salaries give the records, have the one sorted arrangement m[3], m[0], m[5], m[2], m[4], m[1] |
| Pagination.CeilDiv | src/pages/Index.tsx:99 | The fewest pages of `k` items that hold `n` items |
| Pagination.ClampIndex | src/pages/Index.tsx:115-118 | `slice` index clamping: a negative index counts from the end, and the result lies in `[0, len]` |
| Pagination.Slice | src/pages/Index.tsx:115-118 | A slice is never longer than the list |
| Pagination.PageOf | src/pages/Index.tsx:115-118 | `sortedJobs.slice((p-1)*6, p*6)` holds at most six cards, for any page number |
| Pagination.PageContents | src/pages/Index.tsx:115-118 | Page p is the items from (p-1)*6 to min(p*6, length), or nothing once it starts past the end |
| Pagination.ShortListOnePage | src/pages/Index.tsx:115-118 | A list of at most six items is all on page 1 |
| Pagination.PagesPrefix | src/pages/Index.tsx:115-118 | Pages 1 to n together are the first 6n items |
| Pagination.PagesCoverAll | src/pages/Index.tsx:99 | Pages 1 to `Math.ceil(len / 6)` together are the whole list, each item once |
| Pagination.PrevPage | src/pages/Index.tsx:277 | `Math.max(1, p - 1)` is one page back, never below 1 |
| Pagination.NextPage | src/pages/Index.tsx:294 | `Math.min(total, p + 1)` is one page on, never past the last page |
| Pagination.StepsStayInRange | src/pages/Index.tsx:277-294 | From a page in `[1, total]`, Previous and Next stay in range; Previous only stays put on page 1, Next only on the last page |
| Pagination.StepsUndo | src/pages/Index.tsx:277-294 | Previous undoes Next away from the last page, and Next undoes Previous away from the first |
| IndexPage.TotalPages | src/pages/Index.tsx:99 | The page count holds all six records |
| IndexPage.TotalPagesIsOne | src/pages/Index.tsx:98-99 | With six records and six per page there is exactly one page |
| IndexPage.PaginationHidden | src/pages/Index.tsx:271 | The pagination controls are never drawn |
| IndexPage.ListingPage.constructor | src/pages/Index.tsx:92-96 | Initial state: empty search, `"all"`, `"all"`, `"newest"`, page 1 |
| IndexPage.ListingPage.SetSearchQuery | src/pages/Index.tsx:170 | Typing sets the search text and nothing else |
| IndexPage.ListingPage.SetLocationFilter | src/pages/Index.tsx:175 | Choosing a city sets the location filter and nothing else |
| IndexPage.ListingPage.SetTypeFilter | src/pages/Index.tsx:189 | Choosing a type sets the type filter and nothing else |
| IndexPage.ListingPage.SetSortBy | src/pages/Index.tsx:210 | Choosing an order sets the sort selector and nothing else |
| IndexPage.ListingPage.Previous | src/pages/Index.tsx:277 | The page becomes `PrevPage` of the old one and stays valid; page 1 stays page 1 |
| IndexPage.ListingPage.Next | src/pages/Index.tsx:294 | The page becomes `NextPage` of the old one and stays valid; the last page stays put |
| IndexPage.ListingPage.GoToPage | src/pages/Index.tsx:284 | The link of index i sets page i + 1 |
| IndexPage.ListingPage.VisibleJobs | src/pages/Index.tsx:101-118 | One render: the filtered list, a sorted permutation of it, and the page slice. Every shown card is a matching record. "newest" keeps the filtered order with ascending ids. "salary" gives non-increasing parsed salaries, with tied salaries in filtered order. Any other selector keeps the filtered order. The page is the whole sorted list |

## Left out

- Rendering (JSX, layout, icons, the Button/Select/Card/Pagination components) and the page's static text: they compute nothing.
- React's `useState` scheduling and re-rendering. The five state variables are fields of `ListingPage`, and a render is the call `VisibleJobs`.
- The handler wiring (`onChange`, `onValueChange`, `onClick`) is modelled only as calls of the class's methods. Browser events are not part of this model.
- LowerChar: lowers only ASCII and Cyrillic U+0400–U+042F, the letters the data and the filters use. The rest of Unicode case mapping (Greek, Latin-1, special cases like `İ`) is left out.
- ParseInt: reads only the leading run of decimal digits. Leading whitespace, signs, the `0x` prefix and the radix of the full `parseInt` are left out, because no salary has them.
- CeilDiv: `Math.ceil(mockJobs.length / itemsPerPage)` is modelled as integer ceiling division. The floating-point division is not modelled; it is exact for these small values.
- InsertionSort: stands in for the engine's `Array.prototype.sort`. Both are stable and give the same result for a key comparator, but the engine's algorithm and the exact sequence of comparator calls are not modelled.
- InsertionSort, SortedCopy: the ordering is stated only when the comparator is a key comparison, i.e. when every salary parses under "salary". For records with an unparseable salary the order JavaScript produces depends on the engine. Every salary of the six records parses (`MockSalaries`).
- ListingPage.Previous, ListingPage.Next, ListingPage.GoToPage: modelled although with six records the controls that call them are never drawn (`PaginationHidden`).
- Integer widths: ids, page numbers and salaries are unbounded integers. JavaScript numbers are doubles, but every value here is small and exact.
