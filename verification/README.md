# Product-management list logic of localbounty-mart

localbounty-mart is the browser front end of a local marketplace. On its
seller product-management page (`src/pages/ProductManagementPage.tsx`) the
seller sees a table of their listings. The page's list logic is modelled here
as pure Dafny functions over `seq<Product>`, with proofs of what that logic
guarantees:

- **Listing limit.** The subscription tier gives a listing limit: basic 10,
  standard 50, premium unlimited, anything else 0. The "Add New Product"
  button is enabled only while the seller is under that limit.
- **Search.** The search box keeps the products whose lowercased name or
  description contains the lowercased query.
- **Column sort.** Clicking a column header sorts the search result by price,
  stock, name or category, ascending or descending. A second click on the same
  header flips the direction.
- **Local list updates.** After the server accepts a change, the page updates
  its own copy of the list. An add appends the product, an update replaces
  listings by id, and a delete removes listings by id.

Modules:

| module | file | what it holds |
|---|---|---|
| `Wrappers` | wrappers.dfy | `Option`, for the nullable sort field |
| `Seqs` | seqs.dfy | the order-preserving filter (`Array.prototype.filter`) and its laws |
| `StableSort` | stable_sort.dfy | a stable insertion sort (`Array.prototype.sort`): permutation, order, stability |
| `Substring` | substring.dfy | `String.prototype.includes`, proved equal to "some position holds the needle" |
| `Catalog` | catalog.dfy | the `Product` record; unique-id and absent-id predicates |
| `ListingLimit` | listing_limit.dfy | tiers, limits, the add gate |
| `Search` | search.dfy | the search filter |
| `TableSort` | table_sort.dfy | sort state, header clicks, the comparator, the sorted rows |
| `LocalList` | local_list.dfy | add, update-by-id and delete-by-id on the page's list |
| `ManagementPage` | management_page.dfy | the page as a state machine over seller actions; the rendered rows |

Parameters standing in for code outside the model:

- Lowercasing (`toLowerCase`) is the parameter `lower: string -> string`. Its
  result follows Unicode's case mappings, which are not modelled. The only
  fact used is `lower("") == ""`, and only for the empty-query lemmas.
- `localeCompare` is the parameter `localeCompare: (string, string) -> int`.
  The ordering lemmas assume it is a total preorder read off the sign of its
  result (`TableSort.ValidLocaleCompare`): swapping the arguments flips the
  sign, and "not after" is transitive.
- The JavaScript sort is modelled as a stable sort, which the language
  guarantees. Rows the comparator ties keep the order the search gave them.

## Model

| member | source | states |
|---|---|---|
| ListingLimit.ProductLimit | src/pages/ProductManagementPage.tsx:66-73 | basic gives 10 and standard gives 50; the limit is unlimited exactly for premium and 0 exactly for an unknown tier |
| ListingLimit.CanAddMoreProducts | src/pages/ProductManagementPage.tsx:111-113 | adding is allowed iff the limit is unlimited or the count is strictly below the numeric limit; an unknown tier never allows it, premium always does |
| ListingLimit.GateKeepsWithinLimit | src/pages/ProductManagementPage.tsx:111-113 | a seller within the limit who passes the gate is still within it after one more listing |
| ListingLimit.UpgradeNeverLowersLimit | src/pages/ProductManagementPage.tsx:66-73 | along other < basic < standard < premium, a higher tier never has a lower limit |
| ListingLimit.GateMonotone | src/pages/ProductManagementPage.tsx:111-113 | an open gate stays open with fewer listings or a higher tier |
| Substring.Includes | src/pages/ProductManagementPage.tsx:310-311 | the left-to-right scan answers true iff the needle occurs at some position of the haystack |
| Search.FilterProducts | src/pages/ProductManagementPage.tsx:309-312 | the search result is never longer than the list; its contents are stated by FilterSoundComplete |
| Seqs.FilterCounts | src/pages/ProductManagementPage.tsx:309-312 | a filter keeps an element as often as it occurs in the input when it passes the test, and drops it otherwise |
| Seqs.FilterConcat | src/pages/ProductManagementPage.tsx:309-312 | filtering a concatenation is concatenating the filtered parts, so relative order is kept |
| Seqs.FilterSameTest | src/pages/ProductManagementPage.tsx:309-312 | two tests that agree on every element select the same elements |
| Seqs.FilterKeepsAll | src/pages/ProductManagementPage.tsx:309-312 | when every element passes, the filter returns its input unchanged |
| Seqs.FilterPairwise | src/pages/ProductManagementPage.tsx:277 | a property of every ordered pair of elements survives filtering |
| Search.FilterSoundComplete | src/pages/ProductManagementPage.tsx:309-312 | a product is shown iff it is listed and the lowercased query is a substring of its lowercased name or description, with its listed multiplicity |
| Search.FilterKeepsOrder | src/pages/ProductManagementPage.tsx:309-312 | searching a list split in two is searching each part, so the search keeps relative order |
| Search.EmptyQueryShowsAll | src/pages/ProductManagementPage.tsx:309-312 | an empty query shows the whole list in order |
| Search.FilterIdempotentSearch | src/pages/ProductManagementPage.tsx:309-312 | searching a search result again with the same query changes nothing |
| StableSort.Sort | src/pages/ProductManagementPage.tsx:315 | sorting returns a permutation of its input |
| StableSort.SortSorted | src/pages/ProductManagementPage.tsx:315 | with a consistent comparator, no row ends up after a row it must follow |
| StableSort.SortStable | src/pages/ProductManagementPage.tsx:315 | elements the comparator ties with any key keep their input order |
| StableSort.SortKeepsOrderWhenAllTied | src/pages/ProductManagementPage.tsx:316 | a comparator that never asks for a move leaves the input as it was |
| TableSort.Flip | src/pages/ProductManagementPage.tsx:335 | a click on the current column gives the other direction |
| TableSort.Compare | src/pages/ProductManagementPage.tsx:315-331 | 0 without a sort rule; for price and stock it is 0 exactly when the numbers are equal and negative exactly when the first number is smaller (ascending) or larger (descending); for name and category its sign, negative, zero or positive, is `localeCompare`'s, with the rows swapped for descending |
| TableSort.DescendingSwapsRows | src/pages/ProductManagementPage.tsx:319-327 | a descending comparison equals the ascending one with the two rows swapped |
| TableSort.HandleSort | src/pages/ProductManagementPage.tsx:333-340 | after a click the clicked field is selected; the direction flips on the current field and resets to ascending on a new one |
| TableSort.HeaderClickSorts | src/pages/ProductManagementPage.tsx:498-516 | after a click on any of the four column headers the table has a sort rule |
| TableSort.HandleSortTwice | src/pages/ProductManagementPage.tsx:333-340 | two clicks on the current field restore the state; two clicks on a new field leave it descending |
| TableSort.SortProducts | src/pages/ProductManagementPage.tsx:315-331 | the table rows are a permutation of the search result |
| TableSort.UnsortedKeepsOrder | src/pages/ProductManagementPage.tsx:316-330 | with no sort field, or a field other than price, stock, name or category, the rows keep the search order |
| TableSort.ComparatorConsistent | src/pages/ProductManagementPage.tsx:315-331 | for a total-preorder `localeCompare` the page's comparator is consistent in every sort state |
| TableSort.NumericSortOrdered | src/pages/ProductManagementPage.tsx:318-322 | sorting by price or stock is non-decreasing ascending and non-increasing descending |
| TableSort.TextSortOrdered | src/pages/ProductManagementPage.tsx:324-328 | sorting by name or category is ordered under `localeCompare`, with the arguments swapped for descending |
| TableSort.SortKeepsTiesInOrder | src/pages/ProductManagementPage.tsx:315-331 | rows tied under the comparator keep their search order |
| TableSort.NumericSortKeepsEqualInOrder | src/pages/ProductManagementPage.tsx:318-322 | sorting by price or stock keeps the rows with any given number in their search order |
| TableSort.TextSortKeepsEqualInOrder | src/pages/ProductManagementPage.tsx:324-328 | sorting by name or category keeps the rows whose texts `localeCompare` ties in their search order |
| LocalList.AddProduct | src/pages/ProductManagementPage.tsx:155 | an add appends exactly one element at the end and leaves the prefix unchanged |
| LocalList.UpdateProduct | src/pages/ProductManagementPage.tsx:228-230 | an update keeps the length; listings with the updated id become the updated product and all others stay in place |
| LocalList.UpdateKeepsIds | src/pages/ProductManagementPage.tsx:228-230 | an update keeps the id at every position |
| LocalList.UpdateIdempotent | src/pages/ProductManagementPage.tsx:228-230 | the same update applied twice equals applying it once |
| LocalList.UpdateAbsentId | src/pages/ProductManagementPage.tsx:228-230 | an update whose id no listing carries changes nothing |
| LocalList.UpdateListsUpdated | src/pages/ProductManagementPage.tsx:228-230 | the updated product is listed afterwards iff some listing carried its id |
| LocalList.DeleteProduct | src/pages/ProductManagementPage.tsx:277 | a delete never lengthens the list; what it keeps is stated by DeleteRemovesExactly |
| LocalList.DeleteRemovesExactly | src/pages/ProductManagementPage.tsx:277 | after a delete no listing carries the id, and every other listing remains with its multiplicity |
| LocalList.DeleteKeepsOrder | src/pages/ProductManagementPage.tsx:277 | a delete keeps the relative order of the listings it keeps |
| LocalList.DeleteAbsentId | src/pages/ProductManagementPage.tsx:277 | deleting an id no listing carries changes nothing |
| LocalList.DeleteUndoesAdd | src/pages/ProductManagementPage.tsx:155 | deleting a product just added under a fresh id gives back the list as it was |
| LocalList.AddKeepsIdsUnique | src/pages/ProductManagementPage.tsx:155 | an add whose product carries a fresh id keeps ids unique |
| LocalList.UpdateKeepsIdsUnique | src/pages/ProductManagementPage.tsx:228-230 | an update keeps ids unique |
| LocalList.DeleteKeepsIdsUnique | src/pages/ProductManagementPage.tsx:277 | a delete keeps ids unique |
| ManagementPage.Mounted | src/pages/ProductManagementPage.tsx:52-61 | the page mounts with no products, an empty query, no sort rule, the dialog closed and still loading |
| ManagementPage.Step | src/pages/ProductManagementPage.tsx:381-388 | the add dialog opens only by the add button while the gate is open; an add appends the created product and closes the dialog; an update replaces by id and closes the dialog; an orderly event keeps the page within plan; the list grows only by an add or a load; only header clicks change the sort and only typing changes the query |
| ManagementPage.RunKeepsWithinPlan | src/pages/ProductManagementPage.tsx:111-113 | over a series of events in which every load fits the limit and, while the add dialog is open, leaves room for one more, and every add answers the open add dialog, a seller within plan stays within it |
| ManagementPage.Replay | src/pages/ProductManagementPage.tsx:381-388 | replaying events yields the run and reports whether it was orderly (every load fits the limit and, while the add dialog is open, leaves room for one more; every add answers the open add dialog); an orderly run stays within plan, without loads the list grows by at most the number of adds, and an unknown tier never opens the add dialog |
| ManagementPage.TenListings | src/pages/ProductManagementPage.tsx:84 | ten listings with distinct ids, as a load may bring them |
| ManagementPage.LoadDuringAddOvershoots | src/pages/ProductManagementPage.tsx:155 | a basic seller who opens the add dialog before the first load lands, receives ten listings with distinct ids, then adds a product with a fresh id, holds eleven listings |
| ManagementPage.FixedStep | src/pages/ProductManagementPage.tsx:381-388 | with the add button also disabled while loading, a click before the load lands changes nothing, every other event acts as in Step, and the dialog opens only after the load and while the gate is open |
| ManagementPage.FixedRunKeepsInvariant | src/pages/ProductManagementPage.tsx:106-113 | under FixedStep, over events with at most one load, which fits the limit, and whose adds answer the open add dialog, a page within plan whose dialog opens only after loading keeps both |
| ManagementPage.FixedPageStaysWithinPlan | src/pages/ProductManagementPage.tsx:106-113 | with the add button disabled while loading, every such series of events from mount keeps the seller within plan, with no condition on how much room the list leaves |
| ManagementPage.FixedPageRefusesEarlyAdd | src/pages/ProductManagementPage.tsx:381-388 | on the overshooting trace the corrected button keeps the dialog closed before the load, and after ten listings land a basic seller cannot open it |
| ManagementPage.Rows | src/pages/ProductManagementPage.tsx:309-331 | the table never has more rows than the list has products |
| ManagementPage.RowsAreMatches | src/pages/ProductManagementPage.tsx:309-331 | the rows are exactly the matching listings, each as often as it is listed |
| ManagementPage.NoRowsIffNoMatch | src/pages/ProductManagementPage.tsx:527-585 | "No products found" is shown iff no listing matches the query |
| ManagementPage.LoadedShowsEverything | src/pages/ProductManagementPage.tsx:84 | when the first load lands before any other action, the table lists every loaded product in load order |

## Left out

- Network calls: loading the list (`fetchProducts`), the POST, PUT and DELETE requests, `FormData` construction and the blob-to-`File` image conversion (lines 76-104, 120-146, 194-219, 268-274). The backend is not part of this model. A load is the event `ListLoaded` with the list it produced: the server's data (line 84), or on failure the shared context's products (line 100), which the model takes as given. For add, update and delete only the effect of a successful response is modelled; a failed one changes no state.
- How the shared context's products are computed, and the pushes into that context (`addProduct`, `updateProduct`, `deleteProduct`). The context's implementation is not part of this model.
- Toasts, `console.error`, navigation, the delete dialog, and which product the product dialog edits. These are UI side effects. Whether the product dialog is open for a new product is modelled (`Page.adding`).
- The `loading` flag is modelled as `Page.loaded` (set by the load), but only the corrected `FixedStep` reads it. The table, its headers (lines 488-525) and "No products found" (line 585) exist only once loading is done; the model lets header clicks arrive at any time, and `ManagementPage.NoRowsIffNoMatch` speaks of the rows whether or not the table is on screen.
- JSX rendering, category badge classes, delivery labels and stock colour thresholds. These are presentation.
- `src/App.tsx`: a route table and provider wiring with no logic.
- Locale and Unicode behaviour of `toLowerCase` and `localeCompare`. Both are parameters of the model.
- JavaScript floating-point prices, and `NaN` from missing numeric fields. Price and stock are integers, so the comparator's subtraction is exact.
- Product fields that the page's logic never reads: image, delivery option and seller id.
- The edit and delete dialogs' own open and closed state: updates and deletes never lengthen the list, so no invariant depends on them.
- An add request still in flight when the dialog is closed: the model treats an add that answers no open add dialog as not orderly, and makes no promise about the limit after it.
- ManagementPage.Replay: the growth bound `|page.products| + AddCount(events)` holds only for series without loads, because a load replaces the whole list.

## Findings

| source | as written | input that shows it | evidently intended | confidence | as-written member | corrected member |
|---|---|---|---|---|---|---|
| src/pages/ProductManagementPage.tsx:155 | the limit is checked only when the add dialog opens (lines 381-388); the successful add appends without checking again | basic plan; the dialog is opened on the empty list the page mounts with; the first load brings 10 listings; the add succeeds and the list holds 11 | a basic seller never holds more than 10 listings; disabling the add button while the page is loading, as well as when the gate is closed, achieves it | medium, not executed | ManagementPage.LoadDuringAddOvershoots | ManagementPage.FixedPageStaysWithinPlan |
