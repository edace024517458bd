# Product picker widget: the selection-and-ordering state machine

This project models the core of a product-picker page. The page keeps a
ledger of rows, each with a product, the variants chosen for it, a
discount and whether its variant list is shown. Rows are added, removed,
edited field by field and reordered by dragging. A row's variants can be
reordered by dragging inside the row.

Choosing a product for a row opens a picker dialog over a paginated,
searchable product listing. In the dialog the user ticks products and
variants in a selection map. Confirming groups the ticked entries into
products with their selected variants, and those products replace the
edited row.

The model is split into these modules:

- `Catalog` holds the product and variant data.
- `Reorder` holds the splice-out/splice-in move and the `findIndex` lookup.
- `Selection` holds the selection map, its toggle, the product checkbox's cascade and the confirm grouping.
- `Pagination` holds the listing's state machine and the `Pager` class that holds it.
- `Picker` holds the dialog class.
- `ProductRowView` holds the row's variant drag.
- `Rows` holds the ledger class and the pure row-list operations behind its handlers.

State that the code updates in place is modelled as classes:

- `Ledger` holds the rows, the picker's visibility and the edited row.
- `PickerDialog` holds the search term and the selection map.
- `Pager` holds the listing's products, next page, `hasMore` and `loading`.

Each state-changing method ties its new state to a specification
function of the old state. The properties are proved as lemmas about
those functions.

The search service is not called. A fetch returns the request it would
send, and the service's answer comes in as a parameter: `Some(page)` on
success, `None` when the call failed. A fetch is modelled as one step: the
guard, then the outcome.

The selection map uses one key space for product ids and variant ids, as
the code does. Where a property needs the two kinds of id kept apart, the
lemma asks for it: no variant has its product's id, and variant ids are
distinct.

The order of the confirm output is not specified. `IsGrouping` states
everything except the order. The order in which the map's entries are
visited is a parameter `keys`, which lists exactly the map's keys.

Two behaviours of the code, as the model shows them:

- Cancel only closes the dialog. The selection is not cleared, so it is
  still there when the dialog opens again: `Rows.Ledger.ClosePicker`
  keeps `picker.selected`.
- The listing is created without a search argument. Its default term is
  therefore "", and a scroll fetch after a search asks for the next page
  under "" rather than under the searched term (`Pagination.ScrollAfterSearch`).

The variant-removal handler is modelled as `Rows.Ledger.RemoveVariant`.
The page passes it to each row, but the row component never accepts
it, so nothing in the interface calls it.

## Model

| member | source | states |
|---|---|---|
| `Catalog.VariantIds` | src/components/ProductRow.jsx:35-36 | the ids `findIndex` searches: same length as the variant list, and the id of the variant at each position |
| `Reorder.Remove` | src/components/ProductRow.jsx:40 | `splice(i, 1)` leaves one element fewer, with everything before `i` in place and everything after shifted down by one |
| `Reorder.Insert` | src/components/ProductRow.jsx:41 | `splice(j, 0, x)` puts `x` at `j`, with everything before in place and everything after shifted up by one |
| `Reorder.Move` | src/components/ProductRow.jsx:39-41 | taking the element at `from` out and putting it back at `to` keeps the length and puts that element at `to` |
| `Reorder.IndexOf` | src/components/ProductRow.jsx:35-36 | `findIndex`: -1 exactly when no element matches; otherwise a matching position with no match before it |
| `Reorder.MoveAt` | src/components/ProductRow.jsx:39-41 | the moved list has the same length, and every position is filled from exactly one source position (sources are pairwise different) |
| `Reorder.MovePlacesAndKeepsOrder` | src/components/ProductRow.jsx:39-41 | the moved element lands at the target position, and removing it again gives the original list without it, so the others keep their relative order |
| `Reorder.MovePermutes` | src/components/ProductRow.jsx:39-41 | a move is a permutation: the multiset of elements is unchanged |
| `Reorder.MoveIdentity` | src/components/ProductRow.jsx:39-41 | moving an element onto its own position changes nothing |
| `Reorder.MoveKeepsDistinct` | src/App.jsx:122-129 | a move keeps pairwise-distinct keys (row ids) distinct |
| `Reorder.MoveLastToFront` | src/App.jsx:127 | example: dragging the last of rows a, b, c onto the first gives c, a, b |
| `Selection.EntryFor` | src/components/ProductPickerDialog.jsx:49-56 | a product toggle stores `{product}` with no variant, and a variant toggle stores `{product, variant}` |
| `Selection.Toggled` | src/components/ProductPickerDialog.jsx:43-63 | without a forced value the key's membership flips; with one it becomes that value; a present key holds the entry for the target; every other key and entry is unchanged |
| `Selection.ForcedToggleIdempotent` | src/components/ProductPickerDialog.jsx:47-58 | repeating a forced toggle gives the same map as doing it once |
| `Selection.IsProductSelected` | src/components/ProductListItem.jsx:4 | the product checkbox is ticked exactly when the product's id is a key of the selection |
| `Selection.IsVariantChecked` | src/components/ProductListItem.jsx:41 | a variant checkbox is ticked exactly when the variant's id is a key of the selection |
| `Selection.ForceVariants` | src/components/ProductListItem.jsx:8-10 | the variant toggles of the product checkbox, one per listed variant in order, each forcing the same value |
| `Selection.Cascade` | src/components/ProductListItem.jsx:6-11 | the product checkbox: an unforced toggle of the product key, then every variant forced to the negation of the product's prior state |
| `Selection.ToggleEach` | src/components/ProductListItem.jsx:13-15 | the variant checkboxes clicked one after another, each an unforced toggle |
| `Selection.ForceVariantsEffect` | src/components/ProductListItem.jsx:8-10 | after the forced variant toggles, every listed variant key has the forced membership, and every key that is not a listed variant id keeps its membership and entry |
| `Selection.CascadeAgreement` | src/components/ProductListItem.jsx:6-11 | after the product checkbox, the product key and every variant key of the product are present exactly when the product was not selected before |
| `Selection.CascadeFrame` | src/components/ProductListItem.jsx:7-10 | the product checkbox changes no key other than the product's id and its variants' ids |
| `Selection.ForceVariantsEntries` | src/components/ProductListItem.jsx:8-10 | with distinct variant ids, each variant forced on holds exactly `{product, variant}` |
| `Selection.CascadeOnEntries` | src/components/ProductListItem.jsx:6-11 | selecting an unselected product stores `{product}` under its id and `{product, variant}` under each variant id (ids kept apart) |
| `Selection.ToggleEachEffect` | src/components/ProductListItem.jsx:13-15 | unforced variant toggles over distinct ids flip exactly those keys; siblings outside the list and the product key are unchanged |
| `Selection.ProductFlagOutlivesVariants` | src/components/ProductListItem.jsx:4-15 | the product flag is stored, not derived: select a product, then untick every variant, and the product key is still present while no variant key is |
| `Selection.AbsorbedStays` | src/components/ProductPickerDialog.jsx:69-80 | a group that only grows at its end keeps every variant it already held |
| `Selection.NewGroupSound` | src/components/ProductPickerDialog.jsx:70-72 | creating the empty group `{...product, variants: []}` for a new product id keeps every group sound and the creation order duplicate-free |
| `Selection.AppendSound` | src/components/ProductPickerDialog.jsx:74-78 | appending a variant the group lacks, taken from a variant entry of that product, keeps the group's variant ids distinct and every variant selected under that product |
| `Selection.Absorb` | src/components/ProductPickerDialog.jsx:69-80 | one step of the `forEach` keeps all groups sound, only extends groups at their end, and leaves the entry's product grouped with its variant included |
| `Selection.GroupEntries` | src/components/ProductPickerDialog.jsx:67-80 | after the loop every entry of the map is absorbed, and all groups are sound: distinct variant ids, each variant from a variant entry of that product id, fields from an entry's product |
| `Selection.Kept` | src/components/ProductPickerDialog.jsx:83 | the final filter over the groups in enumeration order, keeping those with a variant; never more products than groups |
| `Selection.IsGrouping` | src/components/ProductPickerDialog.jsx:66-83 | what a confirm output is: distinct product ids, each product non-empty with distinct variant ids all selected under it, and every variant entry represented |
| `Selection.KeptFrom` | src/components/ProductPickerDialog.jsx:83 | the filter keeps only listed groups that have at least one variant |
| `Selection.KeptDistinct` | src/components/ProductPickerDialog.jsx:83 | the filter keeps each group at most once |
| `Selection.KeptComplete` | src/components/ProductPickerDialog.jsx:83 | the filter keeps every listed group that has a variant |
| `Selection.KeyedById` | src/components/ProductPickerDialog.jsx:70-71 | each group is stored under its own product id |
| `Selection.KeptSound` | src/components/ProductPickerDialog.jsx:69-83 | every output product has a variant, distinct variant ids, the fields of a selected product and only variants selected under its id |
| `Selection.KeptCovers` | src/components/ProductPickerDialog.jsx:69-83 | every variant entry of the map appears under its product in the output |
| `Selection.KeptIsGrouping` | src/components/ProductPickerDialog.jsx:69-83 | sound groups that absorbed every entry, once filtered, form a valid confirm output |
| `Selection.KeepNonEmpty` | src/components/ProductPickerDialog.jsx:83 | the filter loop returns exactly the listed groups with at least one variant, in list order |
| `Selection.Group` | src/components/ProductPickerDialog.jsx:67-83 | the confirm output: distinct product ids; each product non-empty, with distinct variant ids, every variant from a variant entry of that product id; every variant entry represented |
| `Selection.WithoutVariantEntryNoGroup` | src/components/ProductPickerDialog.jsx:74-83 | a product id whose entries are all product-only never appears in the output |
| `Selection.ProductOnlySelectionDropped` | src/components/ProductPickerDialog.jsx:69-83 | a product ticked on and then stripped of every variant is not in the confirm output |
| `Pagination.Requested` | src/hooks/useInfiniteProducts.js:12-24 | no request exactly when loading or out of pages; otherwise limit 10, with the hook's `search` and the current page used when no term or page is given |
| `Pagination.Blocked` | src/hooks/useInfiniteProducts.js:13 | the fetch guard: a request is in flight or the service has run out |
| `Pagination.Settled` | src/hooks/useInfiniteProducts.js:30-41 | the outcome of a request: on success replace or append, `hasMore` from the page size and the next page; on failure only `loading` goes down |
| `Pagination.Fetched` | src/hooks/useInfiniteProducts.js:12-42 | a whole fetch: unchanged when blocked, otherwise `loading` up and then the outcome |
| `Pagination.Cleared` | src/hooks/useInfiniteProducts.js:45-47 | a reset empties the products, sets page 0 and `hasMore`, and leaves `loading` alone |
| `Pagination.BlockedFetchIsInert` | src/hooks/useInfiniteProducts.js:13 | while loading or once out of pages, a fetch changes nothing and sends nothing |
| `Pagination.FetchEndsLoading` | src/hooks/useInfiniteProducts.js:14-41 | `loading` is false after every fetch that was let through, whether it succeeded or failed |
| `Pagination.SuccessfulFetch` | src/hooks/useInfiniteProducts.js:31-36 | on success page 0 replaces the products and later pages append; `hasMore` holds exactly when 10 came back; the page becomes the fetched page plus one |
| `Pagination.FailedFetch` | src/hooks/useInfiniteProducts.js:37-41 | on failure products, page and `hasMore` are unchanged, and `loading` ends false |
| `Pagination.FetchKeepsCounted` | src/hooks/useInfiniteProducts.js:31-36 | fetching the current page keeps the count: at most 10 products per page fetched, and exactly 10 per page while `hasMore` holds |
| `Pagination.ThreePages` | src/hooks/useInfiniteProducts.js:31-36 | pages of 10, 10 and 7 from the start give the 27 products in order, page 3 and `hasMore` false |
| `Pagination.ShortPageStopsFetching` | src/hooks/useInfiniteProducts.js:13-35 | after a short page, a fetch without arguments asks for nothing and changes nothing |
| `Pagination.ScrollAfterSearch` | src/hooks/useInfiniteProducts.js:6-48 | after a search's first full page, a fetch without arguments asks for page 1 under the hook's default term |
| `Pagination.Pager.constructor` | src/hooks/useInfiniteProducts.js:6-10 | the hook starts with no products, page 0, `hasMore` true and not loading |
| `Pagination.Pager.Begin` | src/hooks/useInfiniteProducts.js:12-29 | the guard, then `loading` goes up and the request is sent |
| `Pagination.Pager.Complete` | src/hooks/useInfiniteProducts.js:30-41 | the outcome is written to the state, and `loading` goes down either way |
| `Pagination.Pager.Fetch` | src/hooks/useInfiniteProducts.js:12-42 | a fetch sends the request `Requested` gives and leaves the state `Fetched` gives |
| `Pagination.Pager.ResetSearch` | src/hooks/useInfiniteProducts.js:44-49 | a reset clears the listing, then fetches page 0 for the term; when nothing was loading, the request is for page 0 of that term |
| `Picker.PickerDialog.constructor` | src/components/ProductPickerDialog.jsx:8-12 | the dialog starts with an empty term and an empty selection over a fresh listing whose default term is "" |
| `Picker.PickerDialog.Opened` | src/components/ProductPickerDialog.jsx:15-17 | opening the dialog fetches with no arguments |
| `Picker.PickerDialog.Scrolled` | src/components/ProductPickerDialog.jsx:19-29 | near the bottom and while `hasMore` holds, a fetch with no arguments; otherwise nothing |
| `Picker.PickerDialog.SearchChange` | src/components/ProductPickerDialog.jsx:31-34 | a search change stores the term, keeps the selection and resets the listing for that term |
| `Picker.PickerDialog.Toggle` | src/components/ProductPickerDialog.jsx:36-64 | the copied map with the key written or deleted is the new selection, as `Toggled` describes |
| `Picker.PickerDialog.ToggleProduct` | src/components/ProductListItem.jsx:6-11 | the product toggle followed by the forced variant toggles in list order leaves the selection `Cascade` describes |
| `Picker.PickerDialog.ToggleVariant` | src/components/ProductListItem.jsx:13-15 | a variant checkbox toggles that variant's key alone |
| `Picker.PickerDialog.Submit` | src/components/ProductPickerDialog.jsx:66-88 | the result is a valid grouping of the selection, and the selection is empty afterwards |
| `ProductRowView.VariantDragEnd` | src/components/ProductRow.jsx:31-45 | the callback fires exactly when the target is present, differs from the dragged id and both ids are found; it gets the row's own index and a permutation of the same length with the dragged variant at the target's position and the others in their old order |
| `ProductRowView.Resolves` | src/components/ProductRow.jsx:35-38 | an id resolves when `findIndex` over the row's variants does not return -1 |
| `Rows.NewRows` | src/App.jsx:64-75 | one new row per selected product, in selection order, with fresh ids, the product's id, title and image ("" when none), its variants, and the default discount and visibility |
| `Rows.EmptyRow` | src/App.jsx:20-28 | the row the page starts with and "Add Product" appends: no product, no variants, a blank "%" discount, variants hidden |
| `Rows.RowFor` | src/App.jsx:64-75 | the row a confirmed product becomes: its id, title and image ("" when none), its variants, and the defaults |
| `Rows.SpliceOne` | src/App.jsx:60-76 | `splice(start, 1, ...items)` on a copy: the start clamped to the length, one element removed when there is one, the items in its place |
| `Rows.SpliceOneReplaces` | src/App.jsx:61-76 | replacing the edited row by N rows changes the length by N-1 and leaves the rows before and after untouched, with the new rows in between |
| `Rows.SpliceOnePastEnd` | src/App.jsx:61-76 | an edited index past the end removes nothing and appends the new rows |
| `Rows.SpliceOneAt` | src/App.jsx:61-76 | each position after the splice comes from the rows before the start, from the new rows, or from the rows after the removed one |
| `Rows.DropIndexSpec` | src/App.jsx:50-52 | removing a row removes exactly the row at an index in range and keeps the others in order; an index out of range changes nothing |
| `Rows.DropIndex` | src/App.jsx:50-52 | `filter((_, i) => i !== index)`: one row fewer for an index in range, the same length otherwise |
| `Rows.WithoutId` | src/App.jsx:110-112 | no variant with the removed id is left, and the list does not grow |
| `Rows.WithoutIdKeepsOthers` | src/App.jsx:110-112 | exactly the variants with other ids are kept |
| `Rows.WithoutAbsentId` | src/App.jsx:110-112 | removing an id that no variant has changes nothing |
| `Rows.WithoutIdIdempotent` | src/App.jsx:108-114 | removing the same variant id twice is the same as removing it once |
| `Rows.WithDiscount` | src/App.jsx:80-85 | only the discount value and type of the given row change |
| `Rows.FlipShown` | src/App.jsx:87-91 | only the given row's `showVariants` changes, and it is negated |
| `Rows.FlipShownTwice` | src/App.jsx:87-91 | toggling a row's variant list twice restores the rows |
| `Rows.WithVariants` | src/App.jsx:116-120 | only the given row's variant list changes, to the new list |
| `Rows.VariantRecords` | src/App.jsx:98-102 | the submitted variants are the row's variants in order, reduced to id, title and price |
| `Rows.Submission` | src/App.jsx:93-103 | one record per row in row order: the product id when the row has a product (absent otherwise), the row's discount, and its variant records |
| `Rows.SpliceKeepsIdsFresh` | src/App.jsx:59-78 | replacing a row by rows with fresh ids keeps row ids pairwise distinct and below the id counter |
| `Rows.RemoveControlKeepsARow` | src/components/ProductRow.jsx:75-82 | the remove control is offered only when there is more than one row, so removing through it never empties the ledger |
| `Rows.EmptySelectionDeletesRow` | src/App.jsx:59-78 | confirming an empty selection deletes the edited row; on the only row it empties the ledger |
| `Rows.ReplaceMiddleRow` | src/App.jsx:61-76 | example: three rows with the middle one replaced by two products give four rows, the outer two untouched |
| `Rows.Ledger.constructor` | src/App.jsx:20-32 | the page starts with one empty row, the picker closed and no row being edited |
| `Rows.Ledger.AddRow` | src/App.jsx:36-48 | exactly one empty row with a fresh id is appended; earlier rows are unchanged |
| `Rows.Ledger.RemoveRow` | src/App.jsx:50-52 | the row at the index is removed and the rest keep their order; an out-of-range index changes nothing |
| `Rows.Ledger.EditClick` | src/App.jsx:54-57 | the row is remembered and the picker opens; opening a closed picker fetches with no arguments |
| `Rows.Ledger.ProductSelect` | src/App.jsx:59-78 | the edited row (position 0 if none was ever edited) gives way to one new row per selected product; ids stay distinct |
| `Rows.Ledger.DiscountChange` | src/App.jsx:80-85 | the rows become `WithDiscount` of the old rows |
| `Rows.Ledger.ToggleVariants` | src/App.jsx:87-91 | the rows become `FlipShown` of the old rows |
| `Rows.Ledger.RemoveVariant` | src/App.jsx:108-114 | the given row loses every variant with the id; other rows are unchanged |
| `Rows.Ledger.VariantReorder` | src/App.jsx:116-120 | the given row's variant list is replaced wholesale |
| `Rows.Ledger.RowIds` | src/App.jsx:125-126 | the ids `findIndex` searches, one per row in order |
| `Rows.Ledger.DragEnd` | src/App.jsx:122-129 | with distinct ids that both resolve, the dragged row moves to the target's position; with no target or an id that does not resolve, the rows are unchanged; the multiset of rows is kept and row ids stay distinct |
| `Rows.Ledger.Submit` | src/App.jsx:93-106 | "Next" yields the `Submission` of the current rows |
| `Rows.Ledger.ClosePicker` | src/components/ProductPickerDialog.jsx:133-135 | Cancel closes the picker and leaves the selection as it was |
| `Rows.Ledger.ConfirmPicker` | src/components/ProductPickerDialog.jsx:66-88 | confirm hands a valid grouping of the selection to the row replacement, then clears the selection and closes the picker; the edited index and the search term are kept |

## Left out

- The search service call, its API key, URL and error logging. A fetch returns the request it would send, and the response is a parameter.
- Overlapping fetches and React's batching of state updates. Each fetch is modelled as one step, and state updates take effect at once.
- Pagination.Pager.ResetSearch: checks the fetch guard against the cleared state. The code checks it against the `loading` and `hasMore` values from before the reset, because its closure is stale. So when the listing has run out, a new search in the code clears the list without fetching; the model fetches.
- The scroll listener's lifetime. Its effect is re-run only when `hasMore` changes, and the list container does not exist while the dialog is closed, so in the code the listener may be attached late or not at all, and it keeps a `fetchProducts` closure with stale `page` and `loading`. The model's `Picker.PickerDialog.Scrolled` always sees the current listing.
- Rendering, styling, icons, the dialog chrome and the row's local show-discount flag.
- The scroll threshold arithmetic. It is reduced to a boolean `nearBottom`.
- Drag gesture handling. The drag handlers take the dragged id and the drop target's id.
- Rows.Ledger.DragEnd: leaves the rows unchanged when the drop target is absent or an id does not resolve. In that case the code passes -1 to the drag library's `arrayMove`, whose body is not part of this model.
- The `Number` conversion of the discount input. A discount value is blank or a real number, and NaN is not represented.
- `uuidv4()`. It is modelled as a counter, and the ledger's `Valid` keeps row ids distinct and below it.
- The console log and the toast of "Next". Only the projection is modelled.
- Picker.PickerDialog.Submit: does not state the order of the output. In the code, it follows JavaScript's enumeration of object keys (integer-like keys ascending, then insertion order). The order in which entries are visited is the parameter `keys`.
- The `Number` conversion of selection keys passed to the list items. Ids are abstract keys.
- Shared row objects. The handlers write fields of row objects that the previous rows array also holds. Only the new array is observed, so the rows are values here.
- Rows.Ledger.DiscountChange: an index with no row leaves the rows unchanged. In the code the write throws before the state is set. The same holds for ToggleVariants, RemoveVariant and VariantReorder.
