/** How the local lists relate to what a fresh fetch from the store would return. */
module Reconcile {
  import opened Records
  import opened ItemLists
  import opened Store

  /** The local list `order` holds exactly the store's rows of list `listId`. */
  ghost predicate SameRows(order: seq<WishItem>, m: map<Id, WishItem>, listId: Id)
  {
    forall k :: InList(m, listId, k) <==> k in Ids(order)
  }

  /** The store's priority of every row of `order` is its position in `order`. */
  ghost predicate PrioritiesArePositions(order: seq<WishItem>, m: map<Id, WishItem>)
  {
    forall p :: 0 <= p < |order| ==> order[p].id in m && m[order[p].id].priority == p
  }

  lemma {:induction false} AscendingOntoPrefix(v: seq<int>, n: nat, len: nat)
    requires len <= |v|
    requires forall i, j :: 0 <= i < j < |v| ==> v[i] < v[j]
    requires forall i :: 0 <= i < |v| ==> 0 <= v[i] < n
    requires forall p :: 0 <= p < n ==> p in v
    ensures forall i :: 0 <= i < len ==> v[i] == i
  {
    if len > 0 {
      var i := len - 1;
      AscendingOntoPrefix(v, n, i);
      assert i <= v[i] by {
        if i > 0 {
          assert v[i - 1] == i - 1;
        }
      }
      assert i in v;
      var j :| 0 <= j < |v| && v[j] == i;
      assert i <= j;
    }
  }

  /** Strictly ascending values in [0, n) that take every value of [0, n) are 0, 1, ..., n-1. */
  lemma AscendingOntoIsIdentity(v: seq<int>, n: nat)
    requires forall i, j :: 0 <= i < j < |v| ==> v[i] < v[j]
    requires forall i :: 0 <= i < |v| ==> 0 <= v[i] < n
    requires forall p :: 0 <= p < n ==> p in v
    ensures |v| == n && forall i :: 0 <= i < |v| ==> v[i] == i
  {
    AscendingOntoPrefix(v, n, |v|);
    if n > 0 {
      assert n - 1 in v;
      var j :| 0 <= j < |v| && v[j] == n - 1;
      assert j == n - 1;
    }
    if |v| > 0 {
      assert v[|v| - 1] == |v| - 1;
    }
  }

  /** When the store's priorities for a list are exactly the positions of its
      rows in `order`, every answer to the priority-ordered fetch is `order`. */
  lemma ListingFollowsPositions(order: seq<WishItem>, m: map<Id, WishItem>, listId: Id, rows: seq<WishItem>)
    requires DistinctIds(order) && SameRows(order, m, listId) && PrioritiesArePositions(order, m)
    requires IsPriorityListing(rows, m, listId)
    ensures Ids(rows) == Ids(order)
  {
    var n := |order|;
    forall j | 0 <= j < |rows|
      ensures 0 <= rows[j].priority < n && order[rows[j].priority].id == rows[j].id
    {
      var k := rows[j].id;
      assert InList(m, listId, k);
      var p :| 0 <= p < n && Ids(order)[p] == k;
      assert m[k] == rows[j];
    }
    var v := seq(|rows|, j requires 0 <= j < |rows| => rows[j].priority);
    forall i, j | 0 <= i < j < |v|
      ensures v[i] < v[j]
    {
      assert rows[i].id != rows[j].id;
    }
    forall p | 0 <= p < n
      ensures p in v
    {
      var k := order[p].id;
      assert Ids(order)[p] == k;
      assert k in Ids(rows);
      var j :| 0 <= j < |rows| && Ids(rows)[j] == k;
      assert v[j] == p;
    }
    AscendingOntoIsIdentity(v, n);
    assert |rows| == n;
    forall j | 0 <= j < n
      ensures Ids(rows)[j] == Ids(order)[j]
    {
      assert v[j] == j;
    }
  }

  /** Once every update of a reorder has been written, a fresh fetch returns the
      reordered list, provided the local list held exactly the list's rows. */
  lemma SettledOrderMatchesLocal(order: seq<WishItem>, m: map<Id, WishItem>, listId: Id, os: seq<Outcome>)
    requires DistinctIds(order) && SameRows(order, m, listId)
    requires |os| == |order| && forall i :: 0 <= i < |os| ==> os[i] == Applied
    ensures var settled := SendUpdates(m, PriorityUpdates(order), os);
      && !settled.1
      && forall rows :: IsPriorityListing(rows, settled.0, listId) ==> Ids(rows) == Ids(order)
  {
    var us := PriorityUpdates(order);
    SendUpdatesEffect(m, us, os);
    var m' := SendUpdates(m, us, os).0;
    assert FirstThrown(os) == |os|;
    assert Targets(us) == Ids(order);
    forall p | 0 <= p < |order|
      ensures order[p].id in m' && m'[order[p].id].priority == p
    {
      assert order[p].id in Ids(order);
      assert us[p].id == order[p].id;
    }
    forall k
      ensures InList(m', listId, k) <==> k in Ids(order)
    {
      if k in m && k !in Targets(us) {
        assert m'[k] == m[k];
      }
      if k in Ids(order) {
        var p :| 0 <= p < |order| && Ids(order)[p] == k;
        assert us[p].id == k;
      }
    }
    forall rows | IsPriorityListing(rows, m', listId)
      ensures Ids(rows) == Ids(order)
    {
      ListingFollowsPositions(order, m', listId, rows);
    }
  }

  /** A reorder batch whose k-th call throws, after k accepted calls, leaves the
      first k rows at their new positions and every later row as it was. */
  lemma FailedBatchCommitsPrefix(order: seq<WishItem>, m: map<Id, WishItem>, os: seq<Outcome>, k: nat)
    requires DistinctIds(order) && forall i :: 0 <= i < |order| ==> order[i].id in m
    requires |os| == |order| && k < |os| && os[k] == Thrown
    requires forall i :: 0 <= i < k ==> os[i] == Applied
    ensures var after := SendUpdates(m, PriorityUpdates(order), os);
      && after.1
      && after.0.Keys == m.Keys
      && (forall i :: 0 <= i < k ==> after.0[order[i].id] == m[order[i].id].(priority := i))
      && (forall i :: k <= i < |order| ==> after.0[order[i].id] == m[order[i].id])
  {
    SendUpdatesEffect(m, PriorityUpdates(order), os);
    assert FirstThrown(os) == k;
  }

  /** Adding an item to a settled list: the store puts the new row last, while
      the page shows it first, so the two orders disagree until the next fetch. */
  lemma AddedItemListedLast(order: seq<WishItem>, m: map<Id, WishItem>, listId: Id, row: WishItem)
    requires DistinctIds(order) && SameRows(order, m, listId) && PrioritiesArePositions(order, m)
    requires row.id !in m && row.wishListId == listId && row.priority == |order|
    ensures forall rows :: IsPriorityListing(rows, m[row.id := row], listId) ==>
      Ids(rows) == Ids(order) + [row.id] && (order != [] ==> Ids(rows) != Ids([row] + order))
  {
    var order' := order + [row];
    var m' := m[row.id := row];
    assert row.id !in Ids(order);
    assert DistinctIds(order');
    forall k
      ensures InList(m', listId, k) <==> k in Ids(order')
    {
      assert Ids(order') == Ids(order) + [row.id];
    }
    forall p | 0 <= p < |order'|
      ensures order'[p].id in m' && m'[order'[p].id].priority == p
    {
      if p < |order| {
        assert order[p].id in Ids(order);
      }
    }
    forall rows | IsPriorityListing(rows, m', listId)
      ensures Ids(rows) == Ids(order) + [row.id] && (order != [] ==> Ids(rows) != Ids([row] + order))
    {
      ListingFollowsPositions(order', m', listId, rows);
      assert Ids(order') == Ids(order) + [row.id];
      if order != [] {
        assert Ids([row] + order)[0] == row.id;
        assert Ids(rows)[0] == order[0].id;
      }
    }
  }

  /** The premise of `AddedItemListedLast` is needed. Once an earlier item has been
      deleted the shown positions no longer match the stored priorities: here the shown
      list `[a, b]` holds exactly the list's rows, stored at priorities 1 and 2. The item
      `c` added with priority `wishItems.length`, 2, then ties with `b`, and a fetch may
      list it before `b`. */
  lemma AddedItemMayTie()
    ensures
      var a := WishItem("a", "L", "A", None, None, false, false, 1, 0, 0);
      var b := WishItem("b", "L", "B", None, None, false, false, 2, 0, 0);
      var c := NewItemRow("c", "L", "C", None, |[a, b]|, 1);
      var m := map["a" := a, "b" := b];
      && SameRows([a, b], m, "L") && "c" !in m
      && IsPriorityListing([a, c, b], m["c" := c], "L")
      && Ids([a, c, b]) != Ids([a, b]) + ["c"]
  {
    var a := WishItem("a", "L", "A", None, None, false, false, 1, 0, 0);
    var b := WishItem("b", "L", "B", None, None, false, false, 2, 0, 0);
    var c := NewItemRow("c", "L", "C", None, |[a, b]|, 1);
    var m := map["a" := a, "b" := b];
    assert "a" != "b" && "a" != "c" && "b" != "c";
    assert Ids([a, b]) == ["a", "b"];
    assert Ids([a, c, b]) == ["a", "c", "b"];
    assert (Ids([a, b]) + ["c"])[1] == "b";
  }

  /** The premise that the shown items are the list's rows is needed as well:
      after a failed fetch the page still shows list `K`'s item `x` while `L` is
      selected, and the new item, given priority 1, sorts before `L`'s own row. */
  lemma AddedToStaleListFirst()
    ensures
      var x := WishItem("x", "K", "X", None, None, false, false, 0, 0, 0);
      var z := WishItem("z", "L", "Z", None, None, false, false, 5, 0, 0);
      var c := NewItemRow("c", "L", "C", None, |[x]|, 1);
      var m := map["x" := x, "z" := z];
      && DistinctIds([x]) && PrioritiesArePositions([x], m) && !SameRows([x], m, "L")
      && "c" !in m
      && IsPriorityListing([c, z], m["c" := c], "L")
      && Ids([c, z]) != Ids([x]) + ["c"]
  {
    var x := WishItem("x", "K", "X", None, None, false, false, 0, 0, 0);
    var z := WishItem("z", "L", "Z", None, None, false, false, 5, 0, 0);
    var c := NewItemRow("c", "L", "C", None, |[x]|, 1);
    var m := map["x" := x, "z" := z];
    assert "x" != "z" && "c" != "x" && "c" != "z";
    assert Ids([x]) == ["x"];
    assert InList(m, "L", "z");
    var m' := m["c" := c];
    assert m'.Keys == {"x", "z", "c"} && m'["x"].wishListId == "K";
    assert Ids([c, z]) == ["c", "z"];
    assert (Ids([x]) + ["c"])[0] == "x";
  }

  /** The agreement after a drag needs the shown items to be the selected list's
      rows. When the fetch for a newly selected list fails, the page keeps showing
      the previous list's items `x` and `y`; a fully applied drag then rewrites
      their priorities, and a fetch of the selected list returns rows the page
      does not show (here none, as `listId` has no rows). */
  lemma StaleItemsDragMisses(m: map<Id, WishItem>, x: WishItem, y: WishItem, listId: Id)
    requires m == map[x.id := x, y.id := y] && x.id != y.id
    requires x.wishListId != listId && y.wishListId != listId
    ensures DistinctIds([x, y]) && !SameRows([x, y], m, listId)
    ensures var settled := SendUpdates(m, PriorityUpdates([y, x]), [Applied, Applied]);
      && !settled.1
      && IsPriorityListing([], settled.0, listId)
      && (forall rows :: IsPriorityListing(rows, settled.0, listId) ==> Ids(rows) != Ids([y, x]))
  {
    assert !SameRows([x, y], m, listId) by {
      assert !InList(m, listId, x.id) && Ids([x, y])[0] == x.id;
    }
    SettledOtherList(m, x, y, listId);
    assert |Ids([y, x])| == 2;
  }

  /** Dropping the second of two items on the first swaps them. */
  lemma DropOnFirst(x: WishItem, y: WishItem)
    requires x.id != y.id
    ensures Ids([x, y]) == [x.id, y.id]
    ensures Reordered([x, y], y.id, x.id) == [y, x]
  {
    assert Ids([x, y]) == [x.id, y.id];
    assert FindIndex([x, y], y.id) == 1 && FindIndex([x, y], x.id) == 0;
    assert RemoveAt([x, y], 1) == [x];
  }

  /** Writing priorities onto the rows of other lists leaves list `listId` without rows. */
  lemma SettledOtherList(m: map<Id, WishItem>, x: WishItem, y: WishItem, listId: Id)
    requires m == map[x.id := x, y.id := y] && x.id != y.id
    requires x.wishListId != listId && y.wishListId != listId
    ensures var settled := SendUpdates(m, PriorityUpdates([y, x]), [Applied, Applied]);
      && !settled.1
      && IsPriorityListing([], settled.0, listId)
      && forall rows :: IsPriorityListing(rows, settled.0, listId) ==> rows == []
  {
    var us := PriorityUpdates([y, x]);
    var m2 := SetPriority(SetPriority(m, PriorityUpdate(y.id, 0)), PriorityUpdate(x.id, 1));
    assert SendUpdates(m, us, [Applied, Applied]) == (m2, false) by {
      var os: seq<Outcome> := [Applied, Applied];
      assert us[0] == PriorityUpdate(y.id, 0) && us[1..][0] == PriorityUpdate(x.id, 1);
      var m1 := SetPriority(m, PriorityUpdate(y.id, 0));
      assert os[1..] == [Applied] && os[1..][1..] == [] && us[1..][1..] == [];
      assert SendUpdates(m, us, os) == SendUpdates(m1, us[1..], os[1..]);
      assert SendUpdates(m1, us[1..], os[1..]) == SendUpdates(m2, [], []);
    }
    assert m2.Keys == {x.id, y.id};
    assert m2[x.id].wishListId == x.wishListId && m2[y.id].wishListId == y.wishListId;
    forall rows: seq<WishItem> | IsPriorityListing(rows, m2, listId)
      ensures rows == []
    {
      ListingHead(rows, m2, listId);
    }
  }

  /** Prepending a list created after every stored one keeps the page's lists
      in the order a fresh fetch by creation time, newest first, returns. */
  lemma PrependKeepsCreationOrder(rows: seq<WishList>, lists: map<Id, WishList>, row: WishList)
    requires IsCreationListing(rows, lists)
    requires row.id !in lists
    requires forall k :: k in lists ==> lists[k].createdAt <= row.createdAt
    ensures IsCreationListing([row] + rows, lists[row.id := row])
  {
    var rows' := [row] + rows;
    var lists' := lists[row.id := row];
    forall k | k in lists'
      ensures k in ListIds(rows')
    {
      if k == row.id {
        assert ListIds(rows')[0] == k;
      } else {
        var i :| 0 <= i < |rows| && ListIds(rows)[i] == k;
        assert ListIds(rows')[i + 1] == k;
      }
    }
    forall i, j | 0 <= i < j < |rows'|
      ensures rows'[i].id != rows'[j].id && rows'[i].createdAt >= rows'[j].createdAt
    {
      if i == 0 {
        assert rows'[j] == rows[j - 1];
        assert rows[j - 1].id in lists;
      }
    }
  }

  /** Every shown row is the store's row with the same id. */
  ghost predicate Mirrors(order: seq<WishItem>, m: map<Id, WishItem>)
  {
    forall i :: 0 <= i < |order| ==> order[i].id in m && m[order[i].id] == order[i]
  }

  /** Toggling a shown item in the store and, after that succeeds, in the shown
      list keeps every shown row equal to the stored one. */
  lemma ToggleKeepsMirror(order: seq<WishItem>, m: map<Id, WishItem>, item: WishItem)
    requires Mirrors(order, m) && item in order
    ensures Mirrors(ToggleBought(order, item.id), SetBought(m, item.id, !item.isBought))
  {
    var j :| 0 <= j < |order| && order[j] == item;
    assert m[item.id] == item;
  }

  /** Deleting an item from the store and then from the shown list keeps the
      shown list holding exactly the list's rows. */
  lemma DeleteItemKeepsSameRows(order: seq<WishItem>, m: map<Id, WishItem>, listId: Id, id: Id)
    requires SameRows(order, m, listId)
    ensures SameRows(WithoutItem(order, id), DropItem(m, id), listId)
  {
    WithoutItemIds(order, id);
  }

  /** The first row of a listing, if any, is one of the list's rows. */
  lemma ListingHead(rows: seq<WishItem>, m: map<Id, WishItem>, listId: Id)
    requires IsPriorityListing(rows, m, listId)
    ensures rows == [] || InList(m, listId, rows[0].id)
  {
  }

  /** Once a list is deleted, with its items, fetching its items returns nothing. */
  lemma DeletedListHasNoItems(m: map<Id, WishItem>, listId: Id, rows: seq<WishItem>)
    requires IsPriorityListing(rows, DropItemsOf(m, listId), listId)
    ensures rows == []
  {
    ListingHead(rows, DropItemsOf(m, listId), listId);
  }

  /** Taking out the entry at `k` keeps a newest-first listing of the other lists. */
  lemma RemoveAtKeepsCreationOrder(rows: seq<WishList>, lists: map<Id, WishList>, k: nat)
    requires k < |rows| && IsCreationListing(rows, lists)
    ensures IsCreationListing(RemoveAt(rows, k), lists - {rows[k].id})
  {
    var r := RemoveAt(rows, k);
    forall key | key in lists - {rows[k].id}
      ensures key in ListIds(r)
    {
      var i :| 0 <= i < |rows| && ListIds(rows)[i] == key;
      var j := if i < k then i else i - 1;
      RemoveAtIndex(rows, k, j);
      assert ListIds(r)[j] == key;
    }
    forall i, j | 0 <= i < j < |r|
      ensures r[i].id != r[j].id && r[i].createdAt >= r[j].createdAt
    {
      RemoveAtIndex(rows, k, i);
      RemoveAtIndex(rows, k, j);
    }
    forall i | 0 <= i < |r|
      ensures r[i].id in lists - {rows[k].id} && lists[r[i].id] == r[i]
    {
      RemoveAtIndex(rows, k, i);
    }
  }

  /** Deleting a list from the store and then from the shown lists keeps the
      shown lists an answer to the newest-first fetch. */
  lemma DeleteListKeepsCreationOrder(rows: seq<WishList>, lists: map<Id, WishList>, id: Id)
    requires IsCreationListing(rows, lists)
    ensures IsCreationListing(WithoutList(rows, id), lists - {id})
  {
    if id in ListIds(rows) {
      var k :| 0 <= k < |rows| && ListIds(rows)[k] == id;
      WithoutListRemovesOne(rows, k);
      RemoveAtKeepsCreationOrder(rows, lists, k);
    } else {
      forall i | 0 <= i < |rows|
        ensures rows[i].id != id
      {
        assert ListIds(rows)[i] == rows[i].id;
      }
      WithoutListAbsent(rows, id);
      assert lists - {id} == lists;
    }
  }
}
