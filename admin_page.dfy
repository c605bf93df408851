/** The admin page: delete lists and items, mark items bought and drag items
    to reorder them. Its fetch, toggle and drag handlers are separate copies of
    the public page's and behave the same way. */
module AdminPanel {
  import opened Records
  import opened ItemLists
  import opened Store
  import opened Reconcile

  class AdminPage {
    /** The three state slots the handlers replace wholesale. */
    var wishLists: seq<WishList>
    var selectedList: Option<WishList>
    var wishItems: seq<WishItem>
    const store: RecordStore
    /** Every request the page sends and every state it installs, in order. */
    ghost var trace: seq<Event>

    ghost predicate Valid()
      reads this, store
    {
      store.Valid()
    }

    constructor (store: RecordStore)
      requires store.Valid()
      ensures Valid() && this.store == store
      ensures wishLists == [] && selectedList == None && wishItems == [] && trace == []
    {
      this.store := store;
      wishLists := [];
      selectedList := None;
      wishItems := [];
      trace := [];
    }

    /** `fetchWishLists`: the lists, newest first; on an error the shown lists stay. */
    method FetchWishLists(outcome: Outcome)
      requires Valid()
      modifies this
      ensures Valid() && selectedList == old(selectedList) && wishItems == old(wishItems)
      ensures outcome == Applied ==> IsCreationListing(wishLists, store.lists)
      ensures outcome != Applied ==> wishLists == old(wishLists)
      ensures trace == old(trace) + [Sent(FetchLists)] + (if outcome == Applied then [ShowLists(wishLists)] else [])
    {
      var r := store.FetchLists(outcome);
      trace := trace + [Sent(FetchLists)];
      if r.Some? {
        wishLists := r.value;
        trace := trace + [ShowLists(wishLists)];
      }
    }

    /** `fetchWishItems(listId)`: the list's items by ascending priority replace the
        shown items; on an error the shown items stay. */
    method FetchWishItems(listId: Id, outcome: Outcome)
      requires Valid()
      modifies this
      ensures Valid() && wishLists == old(wishLists) && selectedList == old(selectedList)
      ensures outcome == Applied ==> IsPriorityListing(wishItems, store.items, listId)
      ensures outcome != Applied ==> wishItems == old(wishItems)
      ensures trace == old(trace) + [Sent(FetchItems(listId))] + (if outcome == Applied then [ShowItems(wishItems)] else [])
    {
      var r := store.FetchItems(listId, outcome);
      trace := trace + [Sent(FetchItems(listId))];
      if r.Some? {
        wishItems := r.value;
        trace := trace + [ShowItems(wishItems)];
      }
    }

    /** Clicking a list calls `setSelectedList(list)`, and the effect on
        `selectedList` fetches its items. React skips the update, and so the effect,
        when `list` is the very object already selected: `sameObject` says so. A list
        equal in value but fetched anew is a different object and does trigger a fetch. */
    method SelectList(list: WishList, sameObject: bool, outcome: Outcome)
      requires Valid()
      requires sameObject ==> selectedList == Some(list)
      modifies this
      ensures Valid() && wishLists == old(wishLists) && selectedList == Some(list)
      ensures sameObject ==> wishItems == old(wishItems) && trace == old(trace)
      ensures !sameObject && outcome == Applied ==> IsPriorityListing(wishItems, store.items, list.id)
      ensures !sameObject && outcome != Applied ==> wishItems == old(wishItems)
      ensures !sameObject ==>
        trace == old(trace) + [ShowSelection(Some(list)), Sent(FetchItems(list.id))]
          + (if outcome == Applied then [ShowItems(wishItems)] else [])
    {
      if sameObject {
        return;
      }
      selectedList := Some(list);
      trace := trace + [ShowSelection(Some(list))];
      FetchWishItems(list.id, outcome);
    }

    /** `deleteWishList(id)`: nothing happens unless the user confirms; the list is
        deleted in the store, with its items, and only when that reports no error is
        it dropped from the shown lists and, if it was the selected one, the
        selection and the shown items are cleared. */
    method DeleteWishList(id: Id, confirmed: bool, outcome: Outcome)
      requires Valid()
      modifies this, store
      ensures Valid()
      ensures !confirmed ==>
        && wishLists == old(wishLists) && selectedList == old(selectedList)
        && wishItems == old(wishItems) && store.lists == old(store.lists)
        && store.items == old(store.items) && trace == old(trace)
      ensures confirmed ==>
        var cleared := outcome == Applied && old(selectedList).Some? && old(selectedList).value.id == id;
        && store.lists == (if outcome == Applied then old(store.lists) - {id} else old(store.lists))
        && store.items == (if outcome == Applied then DropItemsOf(old(store.items), id) else old(store.items))
        && wishLists == (if outcome == Applied then WithoutList(old(wishLists), id) else old(wishLists))
        && selectedList == (if cleared then None else old(selectedList))
        && wishItems == (if cleared then [] else old(wishItems))
        && trace == old(trace) + [Sent(DeleteList(id))]
          + (if outcome == Applied then [ShowLists(wishLists)] else [])
          + (if cleared then [ShowSelection(None), ShowItems([])] else [])
      ensures IsCreationListing(old(wishLists), old(store.lists)) ==> IsCreationListing(wishLists, store.lists)
      ensures confirmed && outcome == Applied && old(selectedList).Some? && old(selectedList).value.id == id ==>
        forall rows :: IsPriorityListing(rows, store.items, id) ==> rows == wishItems
    {
      if !confirmed {
        return;
      }
      if outcome == Applied && IsCreationListing(wishLists, store.lists) {
        DeleteListKeepsCreationOrder(wishLists, store.lists, id);
      }
      store.DeleteList(id, outcome);
      trace := trace + [Sent(DeleteList(id))];
      if outcome == Applied {
        wishLists := WithoutList(wishLists, id);
        trace := trace + [ShowLists(wishLists)];
        if selectedList.Some? && selectedList.value.id == id {
          selectedList := None;
          wishItems := [];
          trace := trace + [ShowSelection(None), ShowItems([])];
          forall rows | IsPriorityListing(rows, store.items, id)
            ensures rows == []
          {
            DeletedListHasNoItems(old(store.items), id, rows);
          }
        }
      }
    }

    /** `toggleItemBought(item)`: the store is updated first; only when it reports no
        error does the page flip `is_bought` on the items with that id. */
    method ToggleItemBought(item: WishItem, outcome: Outcome)
      requires Valid()
      modifies this, store
      ensures Valid() && wishLists == old(wishLists) && selectedList == old(selectedList)
      ensures store.lists == old(store.lists)
      ensures store.items == if outcome == Applied then SetBought(old(store.items), item.id, !item.isBought) else old(store.items)
      ensures wishItems == if outcome == Applied then ToggleBought(old(wishItems), item.id) else old(wishItems)
      ensures trace == old(trace) + [Sent(UpdateBought(item.id, !item.isBought))]
        + (if outcome == Applied then [ShowItems(wishItems)] else [])
      ensures Mirrors(old(wishItems), old(store.items)) && item in old(wishItems) ==> Mirrors(wishItems, store.items)
    {
      if outcome == Applied && Mirrors(wishItems, store.items) && item in wishItems {
        ToggleKeepsMirror(wishItems, store.items, item);
      }
      store.UpdateBought(item.id, !item.isBought, outcome);
      trace := trace + [Sent(UpdateBought(item.id, !item.isBought))];
      if outcome == Applied {
        wishItems := ToggleBought(wishItems, item.id);
        trace := trace + [ShowItems(wishItems)];
      }
    }

    /** `deleteWishItem(id)`: nothing happens unless the user confirms; the item is
        deleted in the store and only when that reports no error is it dropped from
        the shown items. */
    method DeleteWishItem(id: Id, confirmed: bool, outcome: Outcome)
      requires Valid()
      modifies this, store
      ensures Valid() && wishLists == old(wishLists) && selectedList == old(selectedList)
      ensures store.lists == old(store.lists)
      ensures !confirmed ==> wishItems == old(wishItems) && store.items == old(store.items) && trace == old(trace)
      ensures confirmed ==>
        && store.items == (if outcome == Applied then DropItem(old(store.items), id) else old(store.items))
        && wishItems == (if outcome == Applied then WithoutItem(old(wishItems), id) else old(wishItems))
        && trace == old(trace) + [Sent(DeleteItem(id))] + (if outcome == Applied then [ShowItems(wishItems)] else [])
      ensures selectedList.Some? && SameRows(old(wishItems), old(store.items), selectedList.value.id) ==>
        SameRows(wishItems, store.items, selectedList.value.id)
    {
      if !confirmed {
        return;
      }
      if outcome == Applied && selectedList.Some? && SameRows(wishItems, store.items, selectedList.value.id) {
        DeleteItemKeepsSameRows(wishItems, store.items, selectedList.value.id, id);
      }
      store.DeleteItem(id, outcome);
      trace := trace + [Sent(DeleteItem(id))];
      if outcome == Applied {
        wishItems := WithoutItem(wishItems, id);
        trace := trace + [ShowItems(wishItems)];
      }
    }

    /** `handleDragEnd`: dropping item `activeId` on item `over` installs the moved list
        at once, then sends one priority update per item, in list order, each awaited;
        if a call throws the page re-fetches the list's items. The store's `error`
        field is not looked at, so a rejected update leaves the batch running. */
    method HandleDragEnd(activeId: Id, over: Option<Id>, outcomes: seq<Outcome>, refetch: Outcome)
      requires Valid() && selectedList.Some?
      requires activeId in Ids(wishItems) && (over.Some? ==> over.value in Ids(wishItems))
      requires |outcomes| == |wishItems|
      modifies this, store
      ensures Valid() && wishLists == old(wishLists) && selectedList == old(selectedList)
      ensures store.lists == old(store.lists)
      ensures over.None? || over.value == activeId ==>
        wishItems == old(wishItems) && store.items == old(store.items) && trace == old(trace)
      ensures over.Some? && over.value != activeId ==>
        var moved := Reordered(old(wishItems), activeId, over.value);
        var batch := SendUpdates(old(store.items), PriorityUpdates(moved), outcomes);
        var listId := selectedList.value.id;
        && store.items == batch.0
        && (!batch.1 || refetch != Applied ==> wishItems == moved)
        && (batch.1 && refetch == Applied ==> IsPriorityListing(wishItems, store.items, listId))
        && trace == old(trace) + [ShowItems(moved)] + Sends(PriorityUpdates(moved)[..Issued(outcomes)])
          + (if batch.1 then [Sent(FetchItems(listId))] + (if refetch == Applied then [ShowItems(wishItems)] else []) else [])
      ensures (&& over.Some? && over.value != activeId
               && DistinctIds(old(wishItems)) && SameRows(old(wishItems), old(store.items), selectedList.value.id)
               && (forall i :: 0 <= i < |outcomes| ==> outcomes[i] == Applied)) ==>
        forall rows :: IsPriorityListing(rows, store.items, selectedList.value.id) ==> Ids(rows) == Ids(wishItems)
    {
      if over.None? || over.value == activeId {
        return;
      }
      var oldIndex := FindIndex(wishItems, activeId);
      var newIndex := FindIndex(wishItems, over.value);
      var newItems := ArrayMove(wishItems, oldIndex, newIndex);
      ghost var shown, stored := wishItems, store.items;
      SaveOrder(newItems, outcomes, refetch);
      if DistinctIds(shown) && SameRows(shown, stored, selectedList.value.id)
        && forall i :: 0 <= i < |outcomes| ==> outcomes[i] == Applied
      {
        ArrayMoveKeepsIds(shown, oldIndex, newIndex);
        ArrayMoveKeepsDistinct(shown, oldIndex, newIndex);
        SettledOrderMatchesLocal(newItems, stored, selectedList.value.id, outcomes);
      }
    }

    /** The rest of `handleDragEnd` once the new order is known: install it, send one
        priority update per item in that order, and re-fetch the list's items when a
        call throws. */
    method SaveOrder(moved: seq<WishItem>, outcomes: seq<Outcome>, refetch: Outcome)
      requires Valid() && selectedList.Some? && |outcomes| == |moved|
      modifies this, store
      ensures Valid() && wishLists == old(wishLists) && selectedList == old(selectedList)
      ensures store.lists == old(store.lists)
      ensures var batch := SendUpdates(old(store.items), PriorityUpdates(moved), outcomes);
        var listId := selectedList.value.id;
        && store.items == batch.0
        && (!batch.1 || refetch != Applied ==> wishItems == moved)
        && (batch.1 && refetch == Applied ==> IsPriorityListing(wishItems, store.items, listId))
        && trace == old(trace) + [ShowItems(moved)] + Sends(PriorityUpdates(moved)[..Issued(outcomes)])
          + (if batch.1 then [Sent(FetchItems(listId))] + (if refetch == Applied then [ShowItems(wishItems)] else []) else [])
    {
      wishItems := moved;
      trace := trace + [ShowItems(moved)];
      var updates := PriorityUpdates(moved);
      var thrown, issued := SendPriorityUpdates(store, updates, outcomes);
      trace := trace + Sends(updates[..issued]);
      if thrown {
        FetchWishItems(selectedList.value.id, refetch);
      }
    }
  }
}
