# Wish list: item and list handling

A Dafny model of the in-memory logic of the wish-list web app's two pages.

- **Public page** (`WishListPage`). Shows every wish list newest first. Selecting a list shows its items by ascending priority. A user can add a list or an item, mark an item bought or not bought, and drag an item to a new place in the list.
- **Admin page** (`AdminPage`). Shows the same lists and items. A user can delete a list (with its items) or an item after confirming, mark items bought, and drag items.

Each page keeps three pieces of state: `wishLists`, `selectedList` and `wishItems`. Every handler either replaces these wholesale or leaves them alone.

The hosted database is modelled by `Store.RecordStore`. It holds two tables, `items` and `lists`, each a map from id to row. Every request the pages send is a method of that class, and each method takes an `Outcome` saying how the call ended:

- `Applied`: the call succeeded.
- `Rejected`: the call came back with an `error` field and wrote nothing.
- `Thrown`: the call threw and wrote nothing.

Fetches return an arbitrary tie order among rows with equal sort keys, as an `ORDER BY` on a non-unique column does. They are specified by the predicates `IsPriorityListing` (items by ascending `priority`) and `IsCreationListing` (lists by descending `created_at`).

Each page object also carries a ghost `trace` of events: requests sent and state installed. It records the order the handlers follow:

- The bought toggle, the adds and the deletes write to the store first and change the page only on success.
- The drag handler shows the moved list first, then sends one priority update per item, in list order. It awaits each update and does not look at its `error` field. A thrown call stops the batch and triggers a re-fetch.

Modules, one per file:

- `Records` (`records.dfy`): the two row types and the rows the store creates.
- `Text` (`text.dfy`): `String.prototype.trim` and the blank checks on typed names.
- `ItemLists` (`item_lists.dfy`): `findIndex`, `arrayMove`, the priority batch, the toggle, the filters and the summary counts.
- `Store` (`store.dfy`): the tables, their requests and the sequential priority batch.
- `Reconcile` (`reconcile.dfy`): what a fresh fetch would return compared with what a page shows.
- `PublicPage` (`wish_list_page.dfy`) and `AdminPanel` (`admin_page.dfy`): the two pages as classes.

What is proved about the drag batch:

- Suppose the shown items were exactly the selected list's stored rows, with distinct ids. After a batch in which every update is applied, every fetch of the list returns the items in the order the page shows. The listing is unique because the priorities written are 0..n-1.
- That premise can fail on one page with one user. When the fetch for a newly selected list fails, the previous list's items stay on screen. A drag then writes priorities onto that other list's rows, and a fetch of the selected list returns rows the page does not show (`StaleItemsDragMisses`, with `DropOnFirst` for the drag itself).
- A batch whose k-th call throws after k applied calls commits exactly the first k positions.
- A rejected update leaves its row as it was while the batch carries on.

What is proved about adding an item:

- The page shows the new item first.
- The store gives it priority `wishItems.length`. Suppose the shown items were exactly the selected list's stored rows, with distinct ids, and their stored priorities are their positions, as after a fetch following a fully applied drag. Then a fetch right after the insert lists the new item last (`AddedItemListedLast`). The failed fetch described above breaks the first premise: the page can show one list's rows while the new item joins another, and a fetch may then list it first (`AddedToStaleListFirst`).
- Without that premise the new priority can tie with a stored one. After the admin page deletes an earlier item, a fetch may list the new item before an older one (`AddedItemMayTie`).

## Model

| member | source | states |
|---|---|---|
| `Records.NewListRow` | src/lib/supabase.ts:15-22 | a freshly inserted list has the given id and name, is not a Christmas list, has no folder, and was created and updated at the insert instant |
| `Records.NewItemRow` | src/components/WishListPage.tsx:201-210 | a freshly inserted item belongs to the given list, carries the given name, link and priority, is not bought, not starred and has no details |
| `Text.Trim` | src/components/WishListPage.tsx:186 | the result is the slice of the input between its leading and trailing white space, and it neither starts nor ends with white space; it is empty exactly when the input is all white space |
| `Text.OptionalText` | src/components/WishListPage.tsx:207 | the link column: no link exactly when the typed link is blank, otherwise the trimmed link |
| `Text.IsBlank` | src/components/WishListPage.tsx:181 | the `!name.trim()` guard: a definition, true exactly when trimming leaves nothing; `Text.Trim` states that this happens exactly for all-white-space text, and `Text.OptionalText` ties it to the stored link |
| `Text.TrimIdempotent` | src/components/WishListPage.tsx:186 | `trim` is idempotent: trimming an already trimmed text changes nothing |
| `ItemLists.FindIndex` | src/components/WishListPage.tsx:246-247 | -1 exactly when no item has the id; otherwise the first position holding it |
| `ItemLists.ArrayMove` | src/components/WishListPage.tsx:249 | the result is a permutation of the input, holds the moved element at the target position, and with that element taken out equals the input with it taken out at the source position |
| `ItemLists.ArrayMoveAt` | src/components/WishListPage.tsx:249 | position i of the moved list holds the input element at `MovedFrom(from, to, i)` |
| `ItemLists.ArrayMoveInverse` | src/components/WishListPage.tsx:249 | moving back from the target to the source position restores the list |
| `ItemLists.ArrayMoveSame` | src/components/WishListPage.tsx:249 | moving an element onto its own position changes nothing |
| `ItemLists.ArrayMoveKeepsIds` | src/components/WishListPage.tsx:249 | a move neither adds nor loses an id |
| `ItemLists.ArrayMoveKeepsDistinct` | src/components/AdminPage.tsx:221 | a move keeps the ids of the list pairwise distinct |
| `ItemLists.Reordered` | src/components/WishListPage.tsx:244-250 | the list the drag installs is a permutation of the shown items with the dragged item at the drop target's old position |
| `ItemLists.ReorderedMovesOne` | src/components/AdminPage.tsx:217-222 | every other item keeps its relative order; dropping an item on itself changes nothing; distinct ids stay distinct |
| `ItemLists.PriorityUpdates` | src/components/WishListPage.tsx:253-256 | one update per item, addressed to that item's id, in list order |
| `ItemLists.PriorityUpdatesDense` | src/components/AdminPage.tsx:225-228 | the priorities written are exactly 0..n-1, strictly ascending, one per item |
| `ItemLists.ToggleBought` | src/components/WishListPage.tsx:172-174 | items with the toggled id have `is_bought` flipped and nothing else changed; all other items are untouched; the ids stay as they were |
| `ItemLists.ToggleBoughtInvolution` | src/components/AdminPage.tsx:190-192 | toggling the same id twice restores the list |
| `ItemLists.Filter` | src/components/WishListPage.tsx:469 | the result is no longer than the input and holds exactly the elements that pass |
| `ItemLists.FilterSubMultiset` | src/components/WishListPage.tsx:469 | the result takes nothing the input does not hold, counting repeats |
| `ItemLists.FilterKeepsCount` | src/components/WishListPage.tsx:469 | the result holds each passing element exactly as often as the input does |
| `ItemLists.FilterConcat` | src/components/AdminPage.tsx:208 | filtering a concatenation filters each part in order, so the passing elements keep their relative order |
| `ItemLists.FilterLength` | src/components/WishListPage.tsx:469 | the length of a filter is the number of positions whose element passes |
| `ItemLists.FilterEmpty` | src/components/WishListPage.tsx:475 | a filter is empty exactly when no element passes |
| `ItemLists.BoughtCount` | src/components/WishListPage.tsx:468-470 | the bought count is the number of positions holding a bought item |
| `ItemLists.RemainingCount` | src/components/WishListPage.tsx:474-476 | the remaining count is the number of positions holding an item not bought |
| `ItemLists.FilterAll` | src/components/AdminPage.tsx:208 | a filter every element passes returns the list unchanged |
| `ItemLists.FilterDropsOne` | src/components/AdminPage.tsx:172 | a filter that rejects exactly one position removes that element and keeps the order of the rest |
| `ItemLists.FilterComplement` | src/components/WishListPage.tsx:469-475 | the lengths of a filter and of its complement add up to the length of the list |
| `ItemLists.WithoutItem` | src/components/AdminPage.tsx:208 | an item stays exactly when its id is not the deleted id |
| `ItemLists.WithoutList` | src/components/AdminPage.tsx:172 | a list stays exactly when its id is not the deleted id |
| `ItemLists.WithoutItemRemovesOne` | src/components/AdminPage.tsx:198-208 | deleting an item shown once removes that one entry and keeps the order of the others |
| `ItemLists.WithoutItemAbsent` | src/components/AdminPage.tsx:207-208 | deleting an id that is not shown leaves the items as they are |
| `ItemLists.WithoutListRemovesOne` | src/components/AdminPage.tsx:162-172 | deleting a list shown once removes that one entry and keeps the order of the others |
| `ItemLists.WithoutListAbsent` | src/components/AdminPage.tsx:171-172 | deleting an id that is not shown leaves the lists as they are |
| `ItemLists.WithoutItemIds` | src/components/AdminPage.tsx:206-208 | the ids left after a deletion are the former ids other than the deleted one |
| `ItemLists.Summarize` | src/components/WishListPage.tsx:464-475 | total is the number of shown items; bought is the number of bought items and remaining the number of the others; bought plus remaining is the total; bought is 0 exactly when none is bought; remaining is 0 exactly when all are bought |
| `Store.SetPriority` | src/components/WishListPage.tsx:260-263 | the update writes the new priority into the addressed row only; keys stay as they were |
| `Store.SetBought` | src/components/WishListPage.tsx:166-169 | the update writes `is_bought` into the addressed row only; keys stay as they were |
| `Store.DropItem` | src/components/AdminPage.tsx:202-205 | the item table loses the deleted key and nothing else |
| `Store.DropItemsOf` | src/components/AdminPage.tsx:163-169 | deleting a list removes exactly the items that belong to it |
| `Store.FirstThrown` | src/components/WishListPage.tsx:258-270 | the index of the first call of the batch that throws, or the batch length when none does |
| `Store.Issued` | src/components/WishListPage.tsx:259-265 | the number of calls the loop makes: all of them when none throws, otherwise up to and including the first one that throws |
| `Store.SendUpdates` | src/components/WishListPage.tsx:258-269 | the awaited update loop and its `catch`: a definition of the table after sending the updates in order and of whether a call threw; `Store.SendUpdatesEffect` states its effect row by row, `Store.SendPriorityUpdates` proves the loop equal to it, and `Reconcile.FailedBatchCommitsPrefix` and `Reconcile.SettledOrderMatchesLocal` state what a failed and a fully applied batch leave |
| `Store.SendUpdatesEffect` | src/components/WishListPage.tsx:258-270 | the batch reports a throw exactly when one of its calls throws; rows it does not address are untouched; an addressed row gets its new priority exactly when its call comes before the first throw and is applied |
| `Store.EnumerateByRank` | src/components/WishListPage.tsx:153-155 | every key exactly once, in ascending rank, with ties in any order |
| `Store.MinRanked` | src/components/WishListPage.tsx:138 | a key of the set whose rank no other key undercuts |
| `Store.IsPriorityListing` | src/components/WishListPage.tsx:151-155 | a definition of the valid answers to the items fetch: each row of the list exactly once, as stored, by ascending priority with ties in any order; `Store.RecordStore.FetchItems` returns one, and `Reconcile.ListingFollowsPositions` says when it is unique |
| `Store.IsCreationListing` | src/components/WishListPage.tsx:135-138 | a definition of the valid answers to the lists fetch: each list exactly once, as stored, newest first with ties in any order; `Store.RecordStore.FetchLists` returns one, and `Reconcile.PrependKeepsCreationOrder` and `Reconcile.DeleteListKeepsCreationOrder` show the page's updates keep one |
| `Store.RecordStore.FetchLists` | src/components/WishListPage.tsx:135-140 | returns rows exactly when the call is applied; they are all the lists, each once, newest first |
| `Store.RecordStore.FetchItems` | src/components/WishListPage.tsx:151-156 | returns rows exactly when the call is applied; they are all the rows of the list, each once, by ascending priority |
| `Store.RecordStore.InsertList` | src/components/WishListPage.tsx:184-189 | when applied the new row is added under its id and returned; otherwise nothing changes and nothing is returned |
| `Store.RecordStore.InsertItem` | src/components/WishListPage.tsx:201-212 | when applied the new item is added under its id and returned; otherwise nothing changes and nothing is returned |
| `Store.RecordStore.UpdatePriority` | src/components/AdminPage.tsx:232-235 | when applied the row's priority is replaced; otherwise nothing changes |
| `Store.RecordStore.UpdateBought` | src/components/AdminPage.tsx:184-187 | when applied the row's `is_bought` is replaced; otherwise nothing changes |
| `Store.RecordStore.DeleteItem` | src/components/AdminPage.tsx:202-205 | when applied the row is gone; otherwise nothing changes |
| `Store.RecordStore.DeleteList` | src/components/AdminPage.tsx:163-169 | when applied the list and all its items are gone; otherwise nothing changes |
| `Store.SendPriorityUpdates` | src/components/WishListPage.tsx:258-265 | the sequential loop of awaited updates leaves the item table as `SendUpdates` describes, reports whether a call threw, makes `Issued` calls and leaves the lists alone |
| `Reconcile.ListingFollowsPositions` | src/components/WishListPage.tsx:149-157 | when the stored priorities of a list's rows are their positions in a local list, every priority-ordered fetch returns exactly that list |
| `Reconcile.SettledOrderMatchesLocal` | src/components/WishListPage.tsx:242-266 | when the shown items were exactly the list's stored rows with distinct ids, after a drag whose updates were all applied nothing was thrown and every fetch of the list returns the items in the order the page installed |
| `Reconcile.FailedBatchCommitsPrefix` | src/components/AdminPage.tsx:230-241 | when the k-th update throws after k applied ones, the first k rows have their new priorities and the rest are as before |
| `Reconcile.AddedItemListedLast` | src/components/WishListPage.tsx:198-212 | when the shown items were exactly the list's stored rows, with distinct ids and stored priorities equal to their positions, a fetch right after the insert lists the new item last, while the page shows it first |
| `Reconcile.AddedItemMayTie` | src/components/WishListPage.tsx:208 | a witness that the premise is needed: with the shown items stored at priorities 1 and 2, as after the first was deleted, the new item's priority ties with the last one and a fetch may list it second of three |
| `Reconcile.AddedToStaleListFirst` | src/components/WishListPage.tsx:198-212 | a witness that the same-rows premise is needed: the shown item belongs to another list yet has distinct id and positional priority, and a valid fetch after the insert lists the new item first |
| `Reconcile.StaleItemsDragMisses` | src/components/WishListPage.tsx:149-161 | a counter-case for the premise of the settled drag: items `x` and `y` of another list are shown while `listId` is selected, a fully applied drag of them throws nothing, and every valid fetch of `listId` then returns ids other than the shown order `[y, x]` |
| `Reconcile.SettledOtherList` | src/components/WishListPage.tsx:253-264 | writing dense priorities onto the rows of other lists throws nothing and leaves the empty answer as the only valid fetch of a list with no rows |
| `Reconcile.DropOnFirst` | src/components/WishListPage.tsx:246-249 | dropping the second of two items on the first swaps them |
| `Reconcile.PrependKeepsCreationOrder` | src/components/WishListPage.tsx:180-189 | putting a list created after all others in front of a newest-first listing gives a newest-first listing of the new table |
| `Reconcile.ToggleKeepsMirror` | src/components/WishListPage.tsx:164-174 | toggling a shown item in the store and then on the page keeps every shown row equal to its stored row |
| `Reconcile.DeleteItemKeepsSameRows` | src/components/AdminPage.tsx:198-212 | deleting an item in the store and then on the page keeps the page showing exactly the list's rows |
| `Reconcile.DeletedListHasNoItems` | src/components/AdminPage.tsx:162-176 | once a list is deleted, fetching its items returns nothing, which is what the page shows after clearing the selection |
| `Reconcile.DeleteListKeepsCreationOrder` | src/components/AdminPage.tsx:166-172 | deleting a list in the store and then on the page keeps the page's lists a newest-first listing of the table |
| `PublicPage.WishListPage.constructor` | src/components/WishListPage.tsx:104-107 | the page starts with no lists, no selection, no items |
| `PublicPage.WishListPage.FetchWishLists` | src/components/WishListPage.tsx:133-147 | on success the shown lists are all lists, newest first; on an error they stay as they were |
| `PublicPage.WishListPage.FetchWishItems` | src/components/WishListPage.tsx:149-162 | on success the shown items are the list's rows by ascending priority; on an error they stay as they were |
| `PublicPage.WishListPage.SelectList` | src/components/WishListPage.tsx:127-131 | selecting a list sets the selection and fetches its items, except that clicking the very object already selected changes nothing and fetches nothing |
| `PublicPage.WishListPage.ToggleItemBought` | src/components/WishListPage.tsx:164-178 | the store is written first; only on success is the item flipped on the page; stored and shown rows stay equal |
| `PublicPage.WishListPage.AddWishList` | src/components/WishListPage.tsx:180-196 | a blank name sends nothing; otherwise the trimmed name is inserted and, on success, the new row is put first; when the insert instant is no earlier than any stored `created_at`, a newest-first listing stays one |
| `PublicPage.WishListPage.AddWishItem` | src/components/WishListPage.tsx:198-240 | a blank name or no selection sends nothing; otherwise the item is inserted with priority equal to the number of shown items and, on success, put first; when the shown items were exactly the selected list's stored rows, with distinct ids and stored priorities equal to their positions, a fetch right after the insert lists it last instead |
| `PublicPage.WishListPage.HandleDragEnd` | src/components/WishListPage.tsx:242-271 | no drop target or a drop on itself does nothing; otherwise the moved list is shown, the dense updates are sent in order, a throw re-fetches, and, when the shown items were exactly the selected list's stored rows with distinct ids, a fully applied batch leaves the store listing the items in the shown order |
| `PublicPage.WishListPage.SaveOrder` | src/components/WishListPage.tsx:250-269 | after a move: the new order is shown at once, the store ends as the batch of dense updates leaves it, a throw (and only a throw) triggers one re-fetch of the selected list, and the requests are recorded in the order sent |
| `AdminPanel.AdminPage.constructor` | src/components/AdminPage.tsx:111-114 | the page starts with no lists, no selection, no items |
| `AdminPanel.AdminPage.FetchWishLists` | src/components/AdminPage.tsx:133-145 | on success the shown lists are all lists, newest first; on an error they stay as they were |
| `AdminPanel.AdminPage.FetchWishItems` | src/components/AdminPage.tsx:147-160 | on success the shown items are the list's rows by ascending priority; on an error they stay as they were |
| `AdminPanel.AdminPage.SelectList` | src/components/AdminPage.tsx:127-131 | selecting a list sets the selection and fetches its items, except that clicking the very object already selected changes nothing and fetches nothing |
| `AdminPanel.AdminPage.DeleteWishList` | src/components/AdminPage.tsx:162-180 | nothing happens unless confirmed; on success the list and its items leave the store, the list leaves the page, and a deleted selected list clears the selection and the items, agreeing with any later fetch |
| `AdminPanel.AdminPage.ToggleItemBought` | src/components/AdminPage.tsx:182-196 | the store is written first; only on success is the item flipped on the page; stored and shown rows stay equal |
| `AdminPanel.AdminPage.DeleteWishItem` | src/components/AdminPage.tsx:198-212 | nothing happens unless confirmed; on success the item leaves the store and the page, which keeps showing exactly the list's rows |
| `AdminPanel.AdminPage.HandleDragEnd` | src/components/AdminPage.tsx:214-243 | the same reorder as the public page: moved list shown, dense updates sent in order, re-fetch on a throw, store order equal to the shown order after a fully applied batch when the shown items were exactly the selected list's stored rows with distinct ids |
| `AdminPanel.AdminPage.SaveOrder` | src/components/AdminPage.tsx:222-241 | the same tail of the reorder on the admin page: new order shown, store as the batch leaves it, one re-fetch after a throw, requests recorded in order |

## Left out

- The hosted database client is replaced by `Store.RecordStore`. Network, authentication, row-level security and the SQL engine are not modelled. Each call's fate is the `Outcome` parameter.
- Ids the database generates, and the clock behind `created_at`/`updated_at`, are parameters of the insert methods. Timestamps are integers, not ISO strings.
- PublicPage.WishListPage.AddWishList: keeps the newest-first order only when the database clock does not run backwards, that is, when the insert instant is no earlier than any stored `created_at`; nothing in the model guarantees that.
- Records.NewListRow: the `is_christmas` false and `folder_id` null it states are assumed column defaults, since the insert sends only the name; the timestamps are the insert instant given as a parameter.
- Records.NewItemRow: the `is_bought` false, `starred` false and `details` null it states are assumed column defaults, since the insert sends only list, name, link and priority.
- SelectList: whether the clicked list is the very object already selected (React compares state by identity) is the `sameObject` parameter, since the model's rows are values without identity.
- Deleting a list removes its items, as the confirmation text promises. The foreign-key cascade itself is not part of this model.
- The drag-and-drop library is not modelled: sensors, collision detection and animation. A drop is the pair (dragged id, optional target id).
- `HandleDragEnd` requires a selected list, because the sortable area is rendered only then.
- `HandleDragEnd` requires both ids to be among the shown items, because the sortable context is built from them. The case where `findIndex` returns -1 is therefore not modelled.
- Toast notifications and the one-time drag tip are left out. So are console logging and the `loading` flag.
- Form state is left out: the name and link inputs, and the show/hide flags. Typed text and the confirmation answer are parameters.
- Folders, starring and item details are left out; they are not edited by these handlers.
- Concurrency is left out. Each handler runs to completion before the next starts. React's stale closures over state are not modelled, and neither is the non-awaited re-fetch racing other handlers.
- A thrown call is treated as having written nothing. A request that reaches the database and then fails in transit is not modelled.
- Ties among rows with equal `priority` or `created_at` come back in an unspecified order. The model leaves that order open rather than fixing one.
- Trim uses the white-space and line-terminator characters of ECMAScript. No Unicode normalisation is involved.
