/** The record store both pages talk to: the `wish_lists` and `wish_items`
    tables, each keyed by row id. Every call is given the way the store answers
    it, so that failures are inputs of the model rather than hidden. */
module Store {
  import opened Records
  import opened ItemLists

  /** How the store answers one call. */
  datatype Outcome =
    | Applied   // the request is carried out and the response has no `error`
    | Rejected  // the response carries an `error`; nothing is written
    | Thrown    // the call throws before any response; nothing is written

  /** The requests a page sends. */
  datatype Request =
    | FetchLists
    | FetchItems(listId: Id)
    | InsertList(name: string)
    | InsertItem(listId: Id, name: string, link: Option<string>, priority: int)
    | UpdatePriority(id: Id, priority: int)
    | UpdateBought(id: Id, isBought: bool)
    | DeleteItem(id: Id)
    | DeleteList(id: Id)

  /** What a page does, in order: send a request, or install new state with a setter. */
  datatype Event =
    | Sent(request: Request)
    | ShowLists(lists: seq<WishList>)
    | ShowItems(items: seq<WishItem>)
    | ShowSelection(selected: Option<WishList>)

  ghost predicate ItemsKeyed(m: map<Id, WishItem>)
  {
    forall k :: k in m ==> m[k].id == k
  }

  ghost predicate ListsKeyed(m: map<Id, WishList>)
  {
    forall k :: k in m ==> m[k].id == k
  }

  /** The ids of a list of lists, in list order. */
  function ListIds(s: seq<WishList>): (r: seq<Id>)
    ensures |r| == |s| && forall i :: 0 <= i < |s| ==> r[i] == s[i].id
  {
    seq(|s|, i requires 0 <= i < |s| => s[i].id)
  }

  /** The keys of the rows that belong to list `listId`. */
  ghost predicate InList(m: map<Id, WishItem>, listId: Id, k: Id)
  {
    k in m && m[k].wishListId == listId
  }

  // The effect each request has on the tables when it is carried out.

  /** `update({ priority }).eq('id', u.id)` */
  function SetPriority(m: map<Id, WishItem>, u: PriorityUpdate): (r: map<Id, WishItem>)
    ensures r.Keys == m.Keys
    ensures forall k :: k in m ==> r[k] == if k == u.id then m[k].(priority := u.priority) else m[k]
  {
    if u.id in m then m[u.id := m[u.id].(priority := u.priority)] else m
  }

  /** `update({ is_bought: b }).eq('id', id)` */
  function SetBought(m: map<Id, WishItem>, id: Id, b: bool): (r: map<Id, WishItem>)
    ensures r.Keys == m.Keys
    ensures forall k :: k in m ==> r[k] == if k == id then m[k].(isBought := b) else m[k]
  {
    if id in m then m[id := m[id].(isBought := b)] else m
  }

  /** `delete().eq('id', id)` on the items table. */
  function DropItem(m: map<Id, WishItem>, id: Id): (r: map<Id, WishItem>)
    ensures r.Keys == m.Keys - {id}
    ensures forall k :: k in r ==> r[k] == m[k]
  {
    m - {id}
  }

  /** The items that survive deleting list `listId`: its own items go with it. */
  function DropItemsOf(m: map<Id, WishItem>, listId: Id): (r: map<Id, WishItem>)
    ensures forall k :: k in r <==> k in m && m[k].wishListId != listId
    ensures forall k :: k in r ==> r[k] == m[k]
  {
    map k | k in m && m[k].wishListId != listId :: m[k]
  }

  // The batch of priority updates a reorder sends, one awaited call after another.

  /** Position of the first call that throws, or |os| when none does. */
  function FirstThrown(os: seq<Outcome>): (k: nat)
    ensures k <= |os|
    ensures forall i :: 0 <= i < k ==> os[i] != Thrown
    ensures k < |os| ==> os[k] == Thrown
  {
    if os == [] then 0
    else if os[0] == Thrown then 0
    else 1 + FirstThrown(os[1..])
  }

  /** How many calls are issued: all of them, or up to and including the one that throws. */
  function Issued(os: seq<Outcome>): (n: nat)
    ensures n <= |os|
    ensures n == |os| || (0 < n && os[n - 1] == Thrown)
    ensures forall i :: 0 <= i < n - 1 ==> os[i] != Thrown
  {
    if FirstThrown(os) < |os| then FirstThrown(os) + 1 else |os|
  }

  /** The store after sending `us` in order, with answers `os`, and whether a call threw.
      A returned `error` is not looked at, so a rejected update does not stop the batch. */
  function SendUpdates(m: map<Id, WishItem>, us: seq<PriorityUpdate>, os: seq<Outcome>): (r: (map<Id, WishItem>, bool))
    requires |os| == |us|
    decreases |us|
  {
    if us == [] then (m, false)
    else if os[0] == Thrown then (m, true)
    else SendUpdates(if os[0] == Applied then SetPriority(m, us[0]) else m, us[1..], os[1..])
  }

  /** A batch whose k-th call throws has written exactly the updates before k
      that the store accepted; every other row is as it was. */
  lemma {:induction false} SendUpdatesEffect(m: map<Id, WishItem>, us: seq<PriorityUpdate>, os: seq<Outcome>)
    requires |os| == |us|
    requires forall i, j :: 0 <= i < j < |us| ==> us[i].id != us[j].id
    ensures SendUpdates(m, us, os).1 == (FirstThrown(os) < |us|)
    ensures SendUpdates(m, us, os).0.Keys == m.Keys
    ensures forall k :: k in m && k !in Targets(us) ==> SendUpdates(m, us, os).0[k] == m[k]
    ensures forall i :: 0 <= i < |us| && us[i].id in m ==>
      SendUpdates(m, us, os).0[us[i].id] ==
        if i < FirstThrown(os) && os[i] == Applied then m[us[i].id].(priority := us[i].priority) else m[us[i].id]
  {
    if us != [] && os[0] != Thrown {
      var m1 := if os[0] == Applied then SetPriority(m, us[0]) else m;
      var tail := SendUpdates(m1, us[1..], os[1..]);
      SendUpdatesEffect(m1, us[1..], os[1..]);
      assert FirstThrown(os) == 1 + FirstThrown(os[1..]);
      forall k | k in m && k !in Targets(us)
        ensures tail.0[k] == m[k]
      {
        assert k != us[0].id;
      }
      forall i | 0 <= i < |us| && us[i].id in m
        ensures tail.0[us[i].id] ==
          if i < FirstThrown(os) && os[i] == Applied then m[us[i].id].(priority := us[i].priority) else m[us[i].id]
      {
        if i == 0 {
          assert us[0].id !in Targets(us[1..]);
        } else {
          assert us[1..][i - 1] == us[i];
          assert us[i].id != us[0].id;
        }
      }
    }
  }

  /** `rows` is an answer to `select('*').eq('wish_list_id', listId).order('priority')`:
      every row of the list once, as stored, in ascending priority. */
  ghost predicate IsPriorityListing(rows: seq<WishItem>, m: map<Id, WishItem>, listId: Id)
  {
    && (forall i :: 0 <= i < |rows| ==> rows[i].id in m && m[rows[i].id] == rows[i] && rows[i].wishListId == listId)
    && DistinctIds(rows)
    && (forall k :: InList(m, listId, k) ==> k in Ids(rows))
    && (forall i, j :: 0 <= i < j < |rows| ==> rows[i].priority <= rows[j].priority)
  }

  /** `rows` is an answer to `select('*').order('created_at', { ascending: false })`. */
  ghost predicate IsCreationListing(rows: seq<WishList>, m: map<Id, WishList>)
  {
    && (forall i :: 0 <= i < |rows| ==> rows[i].id in m && m[rows[i].id] == rows[i])
    && (forall i, j :: 0 <= i < j < |rows| ==> rows[i].id != rows[j].id)
    && (forall k :: k in m ==> k in ListIds(rows))
    && (forall i, j :: 0 <= i < j < |rows| ==> rows[i].createdAt >= rows[j].createdAt)
  }

  /** A key of `s` whose rank no other key of `s` undercuts; ties go to whichever is met first. */
  method MinRanked(rank: map<Id, int>, s: set<Id>) returns (k: Id)
    requires s != {} && s <= rank.Keys
    ensures k in s && forall j :: j in s ==> rank[k] <= rank[j]
  {
    k :| k in s;
    var rest := s - {k};
    while rest != {}
      invariant k in s && rest <= s
      invariant forall j :: j in s && j !in rest ==> rank[k] <= rank[j]
      decreases rest
    {
      var j :| j in rest;
      if rank[j] < rank[k] {
        k := j;
      }
      rest := rest - {j};
    }
  }

  /** Every key of `rank` once, in ascending rank: what an `order(...)` clause returns. */
  method EnumerateByRank(rank: map<Id, int>) returns (ks: seq<Id>)
    ensures forall i :: 0 <= i < |ks| ==> ks[i] in rank
    ensures forall k :: k in rank ==> k in ks
    ensures forall i, j :: 0 <= i < j < |ks| ==> ks[i] != ks[j]
    ensures forall i, j :: 0 <= i < j < |ks| ==> rank[ks[i]] <= rank[ks[j]]
  {
    ks := [];
    var rest := rank.Keys;
    while rest != {}
      invariant rest <= rank.Keys
      invariant forall i :: 0 <= i < |ks| ==> ks[i] in rank && ks[i] !in rest
      invariant forall k :: k in rank ==> k in rest || k in ks
      invariant forall i, j :: 0 <= i < j < |ks| ==> ks[i] != ks[j]
      invariant forall i, j :: 0 <= i < j < |ks| ==> rank[ks[i]] <= rank[ks[j]]
      invariant forall i, k :: 0 <= i < |ks| && k in rest ==> rank[ks[i]] <= rank[k]
      decreases rest
    {
      var k := MinRanked(rank, rest);
      ks := ks + [k];
      rest := rest - {k};
    }
  }

  class RecordStore {
    var items: map<Id, WishItem>
    var lists: map<Id, WishList>

    ghost predicate Valid()
      reads this
    {
      ItemsKeyed(items) && ListsKeyed(lists)
    }

    constructor ()
      ensures Valid() && items == map[] && lists == map[]
    {
      items := map[];
      lists := map[];
    }

    /** `from('wish_lists').select('*').order('created_at', { ascending: false })` */
    method FetchLists(outcome: Outcome) returns (r: Option<seq<WishList>>)
      requires Valid()
      ensures r.Some? <==> outcome == Applied
      ensures r.Some? ==> IsCreationListing(r.value, lists)
    {
      if outcome != Applied {
        return None;
      }
      var rank := map k | k in lists :: -lists[k].createdAt;
      var ks := EnumerateByRank(rank);
      var table := lists;
      var rows := seq(|ks|, i requires 0 <= i < |ks| => table[ks[i]]);
      forall k | k in lists
        ensures k in ListIds(rows)
      {
        assert k in rank;
        var i :| 0 <= i < |ks| && ks[i] == k;
        assert ListIds(rows)[i] == k;
      }
      r := Some(rows);
    }

    /** `from('wish_items').select('*').eq('wish_list_id', listId).order('priority', { ascending: true })` */
    method FetchItems(listId: Id, outcome: Outcome) returns (r: Option<seq<WishItem>>)
      requires Valid()
      ensures r.Some? <==> outcome == Applied
      ensures r.Some? ==> IsPriorityListing(r.value, items, listId)
    {
      if outcome != Applied {
        return None;
      }
      var rank := map k | k in items && items[k].wishListId == listId :: items[k].priority;
      var ks := EnumerateByRank(rank);
      var table := items;
      var rows := seq(|ks|, i requires 0 <= i < |ks| => table[ks[i]]);
      forall k | InList(items, listId, k)
        ensures k in Ids(rows)
      {
        assert k in rank;
        var i :| 0 <= i < |ks| && ks[i] == k;
        assert Ids(rows)[i] == k;
      }
      r := Some(rows);
    }

    /** `from('wish_lists').insert([{ name }]).select()`; the store picks the fresh key `id` and the time `now`. */
    method InsertList(name: string, id: Id, now: Timestamp, outcome: Outcome) returns (r: Option<WishList>)
      requires Valid() && id !in lists
      modifies this
      ensures Valid() && items == old(items)
      ensures r.Some? <==> outcome == Applied
      ensures r.Some? ==> r.value == NewListRow(id, name, now)
      ensures lists == if outcome == Applied then old(lists)[id := NewListRow(id, name, now)] else old(lists)
    {
      if outcome != Applied {
        return None;
      }
      var row := NewListRow(id, name, now);
      lists := lists[id := row];
      r := Some(row);
    }

    /** `from('wish_items').insert([{ wish_list_id, name, link, priority }]).select()` */
    method InsertItem(listId: Id, name: string, link: Option<string>, priority: int, id: Id, now: Timestamp, outcome: Outcome)
      returns (r: Option<WishItem>)
      requires Valid() && id !in items
      modifies this
      ensures Valid() && lists == old(lists)
      ensures r.Some? <==> outcome == Applied
      ensures r.Some? ==> r.value == NewItemRow(id, listId, name, link, priority, now)
      ensures items == if outcome == Applied then old(items)[id := NewItemRow(id, listId, name, link, priority, now)] else old(items)
    {
      if outcome != Applied {
        return None;
      }
      var row := NewItemRow(id, listId, name, link, priority, now);
      items := items[id := row];
      r := Some(row);
    }

    /** `from('wish_items').update({ priority }).eq('id', id)` */
    method UpdatePriority(u: PriorityUpdate, outcome: Outcome)
      requires Valid()
      modifies this
      ensures Valid() && lists == old(lists)
      ensures items == if outcome == Applied then SetPriority(old(items), u) else old(items)
    {
      if outcome == Applied {
        items := SetPriority(items, u);
      }
    }

    /** `from('wish_items').update({ is_bought }).eq('id', id)` */
    method UpdateBought(id: Id, isBought: bool, outcome: Outcome)
      requires Valid()
      modifies this
      ensures Valid() && lists == old(lists)
      ensures items == if outcome == Applied then SetBought(old(items), id, isBought) else old(items)
    {
      if outcome == Applied {
        items := SetBought(items, id, isBought);
      }
    }

    /** `from('wish_items').delete().eq('id', id)` */
    method DeleteItem(id: Id, outcome: Outcome)
      requires Valid()
      modifies this
      ensures Valid() && lists == old(lists)
      ensures items == if outcome == Applied then DropItem(old(items), id) else old(items)
    {
      if outcome == Applied {
        items := DropItem(items, id);
      }
    }

    /** `from('wish_lists').delete().eq('id', id)`; the list's items are deleted with it. */
    method DeleteList(id: Id, outcome: Outcome)
      requires Valid()
      modifies this
      ensures Valid()
      ensures lists == if outcome == Applied then old(lists) - {id} else old(lists)
      ensures items == if outcome == Applied then DropItemsOf(old(items), id) else old(items)
    {
      if outcome == Applied {
        lists := lists - {id};
        items := DropItemsOf(items, id);
      }
    }
  }

  /** The events of sending `us` one after another. */
  function Sends(us: seq<PriorityUpdate>): (r: seq<Event>)
    ensures |r| == |us| && forall i :: 0 <= i < |us| ==> r[i] == Sent(UpdatePriority(us[i].id, us[i].priority))
  {
    seq(|us|, i requires 0 <= i < |us| => Sent(UpdatePriority(us[i].id, us[i].priority)))
  }

  /** `for (const update of updates) { await supabase.from('wish_items').update(...).eq('id', update.id) }`
      inside a `try`: the calls go out one at a time, a returned error is ignored, and the
      first call that throws ends the batch. */
  method SendPriorityUpdates(store: RecordStore, us: seq<PriorityUpdate>, os: seq<Outcome>)
    returns (thrown: bool, ghost issued: nat)
    requires store.Valid() && |os| == |us|
    modifies store
    ensures store.Valid() && store.lists == old(store.lists)
    ensures store.items == SendUpdates(old(store.items), us, os).0
    ensures thrown == SendUpdates(old(store.items), us, os).1
    ensures issued == Issued(os)
  {
    var k := 0;
    while k < |us|
      invariant 0 <= k <= |us|
      invariant store.Valid() && store.lists == old(store.lists)
      invariant forall i :: 0 <= i < k ==> os[i] != Thrown
      invariant SendUpdates(old(store.items), us, os) == SendUpdates(store.items, us[k..], os[k..])
    {
      store.UpdatePriority(us[k], os[k]);
      if os[k] == Thrown {
        assert FirstThrown(os) == k;
        return true, k + 1;
      }
      assert us[k..][1..] == us[k + 1..] && os[k..][1..] == os[k + 1..];
      k := k + 1;
    }
    assert FirstThrown(os) == |os|;
    return false, |os|;
  }
}
