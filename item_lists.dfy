/** The pure array transforms the two pages apply to their local lists before
    installing the result with a state setter. */
module ItemLists {
  import opened Records

  /** The ids of a list of items, in list order. */
  function Ids(s: seq<WishItem>): (r: seq<Id>)
    ensures |r| == |s| && forall i :: 0 <= i < |s| ==> r[i] == s[i].id
  {
    seq(|s|, i requires 0 <= i < |s| => s[i].id)
  }

  lemma IdsCons(s: seq<WishItem>)
    requires s != []
    ensures Ids(s) == [s[0].id] + Ids(s[1..])
  {
  }

  predicate DistinctIds(s: seq<WishItem>)
  {
    forall i, j :: 0 <= i < j < |s| ==> s[i].id != s[j].id
  }

  /** `s.findIndex(item => item.id === id)`: the first position holding `id`, or -1. */
  function FindIndex(s: seq<WishItem>, id: Id): (r: int)
    ensures -1 <= r < |s|
    ensures r == -1 <==> id !in Ids(s)
    ensures r >= 0 ==> s[r].id == id && forall i :: 0 <= i < r ==> s[i].id != id
  {
    if s == [] then -1
    else if s[0].id == id then 0
    else
      var k := FindIndex(s[1..], id);
      IdsCons(s);
      if k == -1 then -1 else k + 1
  }

  /** `s` without its element at position `i`. */
  function RemoveAt<T>(s: seq<T>, i: nat): (r: seq<T>)
    requires i < |s|
    ensures |r| == |s| - 1
  {
    s[..i] + s[i + 1..]
  }

  /** Position `j` of `RemoveAt(s, i)` holds what position `j` or `j + 1` of `s` held. */
  lemma RemoveAtIndex<T>(s: seq<T>, i: nat, j: nat)
    requires i < |s| && j < |s| - 1
    ensures RemoveAt(s, i)[j] == if j < i then s[j] else s[j + 1]
  {
  }

  /** `arrayMove(s, from, to)`: take the element at `from` out and insert it so
      that it ends up at position `to`. */
  function ArrayMove<T>(s: seq<T>, from: nat, to: nat): (r: seq<T>)
    requires from < |s| && to < |s|
    ensures |r| == |s| && multiset(r) == multiset(s)
    ensures r[to] == s[from]
    ensures RemoveAt(r, to) == RemoveAt(s, from)
  {
    var rest := RemoveAt(s, from);
    var moved := rest[..to] + [s[from]] + rest[to..];
    assert s == s[..from] + [s[from]] + s[from + 1..];
    assert rest == rest[..to] + rest[to..];
    assert moved[..to] == rest[..to] && moved[to + 1..] == rest[to..];
    assert multiset(moved) == multiset(rest[..to]) + multiset{s[from]} + multiset(rest[to..]);
    assert multiset(s) == multiset(s[..from]) + multiset{s[from]} + multiset(s[from + 1..]);
    assert rest == s[..from] + s[from + 1..];
    assert multiset(rest) == multiset(s[..from]) + multiset(s[from + 1..]);
    assert multiset(rest) == multiset(rest[..to]) + multiset(rest[to..]);
    assert multiset(moved) == multiset(rest) + multiset{s[from]};
    assert multiset(s) == multiset(rest) + multiset{s[from]};
    moved
  }

  /** The position in `s` that position `i` of `ArrayMove(s, from, to)` comes from. */
  function MovedFrom(from: nat, to: nat, i: nat): nat
  {
    if i == to then from
    else
      var j := if i < to then i else i - 1;
      if j < from then j else j + 1
  }

  lemma ArrayMoveAt<T>(s: seq<T>, from: nat, to: nat, i: nat)
    requires from < |s| && to < |s| && i < |s|
    ensures MovedFrom(from, to, i) < |s| && ArrayMove(s, from, to)[i] == s[MovedFrom(from, to, i)]
  {
    var rest := RemoveAt(s, from);
    if i < to {
      assert ArrayMove(s, from, to)[i] == rest[i];
      RemoveAtIndex(s, from, i);
    } else if to < i {
      assert ArrayMove(s, from, to)[i] == rest[i - 1];
      RemoveAtIndex(s, from, i - 1);
    }
  }

  /** A move is undone by the move back. */
  lemma ArrayMoveInverse<T>(s: seq<T>, from: nat, to: nat)
    requires from < |s| && to < |s|
    ensures ArrayMove(ArrayMove(s, from, to), to, from) == s
  {
    var r := ArrayMove(s, from, to);
    var back := ArrayMove(r, to, from);
    forall i | 0 <= i < |s|
      ensures back[i] == s[i]
    {
      ArrayMoveAt(r, to, from, i);
      ArrayMoveAt(s, from, to, MovedFrom(to, from, i));
    }
  }

  /** Moving an element onto its own position changes nothing. */
  lemma ArrayMoveSame<T>(s: seq<T>, i: nat)
    requires i < |s|
    ensures ArrayMove(s, i, i) == s
  {
    forall k | 0 <= k < |s|
      ensures ArrayMove(s, i, i)[k] == s[k]
    {
      ArrayMoveAt(s, i, i, k);
    }
  }

  /** A move neither creates nor loses an id. */
  lemma ArrayMoveKeepsIds(s: seq<WishItem>, from: nat, to: nat)
    requires from < |s| && to < |s|
    ensures forall id :: id in Ids(ArrayMove(s, from, to)) <==> id in Ids(s)
  {
    var r := ArrayMove(s, from, to);
    forall id | id in Ids(r)
      ensures id in Ids(s)
    {
      var i :| 0 <= i < |r| && Ids(r)[i] == id;
      ArrayMoveAt(s, from, to, i);
      assert Ids(s)[MovedFrom(from, to, i)] == id;
    }
    forall id | id in Ids(s)
      ensures id in Ids(r)
    {
      var j :| 0 <= j < |s| && Ids(s)[j] == id;
      ArrayMoveInverse(s, from, to);
      ArrayMoveAt(r, to, from, j);
      assert Ids(r)[MovedFrom(to, from, j)] == id;
    }
  }

  /** A move keeps the ids of a list distinct. */
  lemma ArrayMoveKeepsDistinct(s: seq<WishItem>, from: nat, to: nat)
    requires from < |s| && to < |s| && DistinctIds(s)
    ensures DistinctIds(ArrayMove(s, from, to))
  {
    var r := ArrayMove(s, from, to);
    forall i, j | 0 <= i < j < |r|
      ensures r[i].id != r[j].id
    {
      ArrayMoveAt(s, from, to, i);
      ArrayMoveAt(s, from, to, j);
      assert MovedFrom(from, to, i) != MovedFrom(from, to, j);
    }
  }

  /** The list `handleDragEnd` installs when the item `activeId` is dropped on the item `overId`. */
  function Reordered(s: seq<WishItem>, activeId: Id, overId: Id): (r: seq<WishItem>)
    requires activeId in Ids(s) && overId in Ids(s)
    ensures |r| == |s| && multiset(r) == multiset(s)
    ensures r[FindIndex(s, overId)].id == activeId
  {
    ArrayMove(s, FindIndex(s, activeId), FindIndex(s, overId))
  }

  /** The dragged item lands where the target was and every other item keeps
      its relative order; dropping an item on itself changes nothing. */
  lemma ReorderedMovesOne(s: seq<WishItem>, activeId: Id, overId: Id)
    requires activeId in Ids(s) && overId in Ids(s)
    ensures var from, to := FindIndex(s, activeId), FindIndex(s, overId);
      && RemoveAt(Reordered(s, activeId, overId), to) == RemoveAt(s, from)
      && (activeId == overId ==> Reordered(s, activeId, overId) == s)
      && (activeId != overId ==> from != to)
      && (DistinctIds(s) ==> DistinctIds(Reordered(s, activeId, overId)))
  {
    var from, to := FindIndex(s, activeId), FindIndex(s, overId);
    if activeId == overId {
      ArrayMoveSame(s, from);
    }
    if DistinctIds(s) {
      ArrayMoveKeepsDistinct(s, from, to);
    }
  }

  /** One `{id, priority}` pair of the batch a reorder sends. */
  datatype PriorityUpdate = PriorityUpdate(id: Id, priority: int)

  /** `s.map((item, index) => ({ id: item.id, priority: index }))`. */
  function PriorityUpdates(s: seq<WishItem>): (r: seq<PriorityUpdate>)
    ensures |r| == |s| && forall i :: 0 <= i < |s| ==> r[i].id == s[i].id
  {
    seq(|s|, i requires 0 <= i < |s| => PriorityUpdate(s[i].id, i))
  }

  /** The ids the updates address, in sending order. */
  function Targets(us: seq<PriorityUpdate>): (r: seq<Id>)
    ensures |r| == |us| && forall i :: 0 <= i < |us| ==> r[i] == us[i].id
  {
    seq(|us|, i requires 0 <= i < |us| => us[i].id)
  }

  /** The priorities a reorder writes are exactly 0 .. N-1, strictly ascending,
      and address every item of the list once. */
  lemma PriorityUpdatesDense(s: seq<WishItem>)
    ensures var us := PriorityUpdates(s);
      && (forall i, j :: 0 <= i < j < |us| ==> us[i].priority < us[j].priority)
      && (forall i :: 0 <= i < |us| ==> 0 <= us[i].priority < |s|)
      && (forall p :: 0 <= p < |s| ==> us[p].priority == p)
      && Targets(us) == Ids(s)
  {
  }

  /** `s.map(i => i.id === id ? { ...i, is_bought: !i.is_bought } : i)`. */
  function ToggleBought(s: seq<WishItem>, id: Id): (r: seq<WishItem>)
    ensures |r| == |s| && Ids(r) == Ids(s)
    ensures forall i :: 0 <= i < |s| && s[i].id != id ==> r[i] == s[i]
    ensures forall i :: 0 <= i < |s| && s[i].id == id ==>
      r[i].isBought == !s[i].isBought && r[i].(isBought := s[i].isBought) == s[i]
  {
    seq(|s|, i requires 0 <= i < |s| => if s[i].id == id then s[i].(isBought := !s[i].isBought) else s[i])
  }

  /** Toggling the same id twice restores the list. */
  lemma ToggleBoughtInvolution(s: seq<WishItem>, id: Id)
    ensures ToggleBought(ToggleBought(s, id), id) == s
  {
  }

  /** `s.filter(keep)`: the elements that pass, in their original order. */
  function Filter<T>(s: seq<T>, keep: T -> bool): (r: seq<T>)
    ensures |r| <= |s|
    ensures forall i :: 0 <= i < |r| ==> r[i] in s && keep(r[i])
    ensures forall i :: 0 <= i < |s| && keep(s[i]) ==> s[i] in r
  {
    if s == [] then []
    else if keep(s[0]) then [s[0]] + Filter(s[1..], keep)
    else Filter(s[1..], keep)
  }

  /** A filter takes nothing the input does not hold, counting repeats. */
  lemma {:induction false} FilterSubMultiset<T>(s: seq<T>, keep: T -> bool)
    ensures multiset(Filter(s, keep)) <= multiset(s)
  {
    if s != [] {
      FilterSubMultiset(s[1..], keep);
      assert s == [s[0]] + s[1..];
      assert multiset(s) == multiset{s[0]} + multiset(s[1..]);
      if keep(s[0]) {
        var rest := Filter(s[1..], keep);
        assert multiset([s[0]] + rest) == multiset{s[0]} + multiset(rest);
      }
    }
  }

  /** A filter keeps every passing element as often as the input holds it. */
  lemma {:induction false} FilterKeepsCount<T>(s: seq<T>, keep: T -> bool, x: T)
    requires keep(x)
    ensures multiset(Filter(s, keep))[x] == multiset(s)[x]
  {
    if s != [] {
      FilterKeepsCount(s[1..], keep, x);
      assert s == [s[0]] + s[1..];
      assert multiset(s) == multiset{s[0]} + multiset(s[1..]);
      if keep(s[0]) {
        var rest := Filter(s[1..], keep);
        assert multiset([s[0]] + rest) == multiset{s[0]} + multiset(rest);
      } else {
        assert s[0] != x;
      }
    }
  }

  /** Filtering a concatenation filters each part and keeps them in order, so
      `filter` keeps the relative order and the repeats of what passes. */
  lemma {:induction false} FilterConcat<T>(a: seq<T>, b: seq<T>, keep: T -> bool)
    ensures Filter(a + b, keep) == Filter(a, keep) + Filter(b, keep)
  {
    if a != [] {
      FilterConcat(a[1..], b, keep);
      assert (a + b)[1..] == a[1..] + b;
    } else {
      assert a + b == b;
    }
  }

  /** The positions below `n` whose element passes. */
  ghost function Passing<T>(s: seq<T>, keep: T -> bool, n: nat): set<nat>
    requires n <= |s|
  {
    set i: nat | i < n && keep(s[i])
  }

  /** One more position adds itself to the passing set exactly when it passes. */
  lemma PassingStep<T>(s: seq<T>, keep: T -> bool, n: nat)
    requires 0 < n <= |s|
    ensures |Passing(s, keep, n)| == |Passing(s, keep, n - 1)| + if keep(s[n - 1]) then 1 else 0
  {
    if keep(s[n - 1]) {
      assert Passing(s, keep, n) == Passing(s, keep, n - 1) + {n - 1};
    } else {
      assert Passing(s, keep, n) == Passing(s, keep, n - 1);
    }
  }

  /** The length of a filter is the number of positions whose element passes. */
  lemma {:induction false} FilterCountsPositions<T>(s: seq<T>, keep: T -> bool, n: nat)
    requires n <= |s|
    ensures |Filter(s[..n], keep)| == |Passing(s, keep, n)|
  {
    if n > 0 {
      FilterCountsPositions(s, keep, n - 1);
      assert s[..n] == s[..n - 1] + [s[n - 1]];
      FilterConcat(s[..n - 1], [s[n - 1]], keep);
      assert |Filter([s[n - 1]], keep)| == if keep(s[n - 1]) then 1 else 0 by {
        assert [s[n - 1]][1..] == [];
      }
      PassingStep(s, keep, n);
    } else {
      assert s[..0] == [];
      assert Passing(s, keep, 0) == {};
    }
  }

  /** `s.filter(keep).length` counts the positions of `s` whose element passes. */
  lemma FilterLength<T>(s: seq<T>, keep: T -> bool)
    ensures |Filter(s, keep)| == |Passing(s, keep, |s|)|
  {
    FilterCountsPositions(s, keep, |s|);
    assert s[..|s|] == s;
  }

  lemma {:induction false} FilterAll<T>(s: seq<T>, keep: T -> bool)
    requires forall i :: 0 <= i < |s| ==> keep(s[i])
    ensures Filter(s, keep) == s
  {
    if s != [] {
      FilterAll(s[1..], keep);
    }
  }

  /** A filter that rejects exactly one position removes that element and nothing else. */
  lemma {:induction false} FilterDropsOne<T>(s: seq<T>, keep: T -> bool, k: nat)
    requires k < |s| && !keep(s[k])
    requires forall i :: 0 <= i < |s| && i != k ==> keep(s[i])
    ensures Filter(s, keep) == RemoveAt(s, k)
  {
    var tail := s[1..];
    if k == 0 {
      forall i | 0 <= i < |tail|
        ensures keep(tail[i])
      {
        assert tail[i] == s[i + 1];
      }
      FilterAll(tail, keep);
      assert RemoveAt(s, 0) == tail;
    } else {
      forall i | 0 <= i < |tail| && i != k - 1
        ensures keep(tail[i])
      {
        assert tail[i] == s[i + 1];
      }
      FilterDropsOne(tail, keep, k - 1);
      assert Filter(s, keep) == [s[0]] + Filter(tail, keep) by {
        assert keep(s[0]);
      }
      RemoveAtCons(s, k);
    }
  }

  lemma RemoveAtCons<T>(s: seq<T>, k: nat)
    requires 0 < k < |s|
    ensures RemoveAt(s, k) == [s[0]] + RemoveAt(s[1..], k - 1)
  {
    assert s[..k] == [s[0]] + s[1..][..k - 1];
    assert s[k + 1..] == s[1..][k..];
  }

  /** The two halves of a partition add up to the whole. */
  lemma {:induction false} FilterComplement<T>(s: seq<T>, keep: T -> bool, drop: T -> bool)
    requires forall i :: 0 <= i < |s| ==> drop(s[i]) == !keep(s[i])
    ensures |Filter(s, keep)| + |Filter(s, drop)| == |s|
  {
    if s != [] {
      FilterComplement(s[1..], keep, drop);
    }
  }

  /** `s.filter(item => item.id !== id)` */
  function WithoutItem(s: seq<WishItem>, id: Id): (r: seq<WishItem>)
    ensures forall x :: x in r <==> x in s && x.id != id
  {
    Filter(s, (x: WishItem) => x.id != id)
  }

  /** `s.filter(list => list.id !== id)` */
  function WithoutList(s: seq<WishList>, id: Id): (r: seq<WishList>)
    ensures forall x :: x in r <==> x in s && x.id != id
  {
    Filter(s, (x: WishList) => x.id != id)
  }

  /** Deleting an item that occurs once removes exactly that entry; the others keep their order. */
  lemma WithoutItemRemovesOne(s: seq<WishItem>, k: nat)
    requires k < |s| && DistinctIds(s)
    ensures WithoutItem(s, s[k].id) == RemoveAt(s, k)
  {
    FilterDropsOne(s, (x: WishItem) => x.id != s[k].id, k);
  }

  /** Deleting an id that is not shown leaves the list as it is. */
  lemma WithoutItemAbsent(s: seq<WishItem>, id: Id)
    requires id !in Ids(s)
    ensures WithoutItem(s, id) == s
  {
    FilterAll(s, (x: WishItem) => x.id != id);
  }

  /** Deleting a list that occurs once removes exactly that entry; the others keep their order. */
  lemma WithoutListRemovesOne(s: seq<WishList>, k: nat)
    requires k < |s|
    requires forall i, j :: 0 <= i < j < |s| ==> s[i].id != s[j].id
    ensures WithoutList(s, s[k].id) == RemoveAt(s, k)
  {
    FilterDropsOne(s, (x: WishList) => x.id != s[k].id, k);
  }

  /** Deleting a list that is not shown leaves the lists as they are. */
  lemma WithoutListAbsent(s: seq<WishList>, id: Id)
    requires forall i :: 0 <= i < |s| ==> s[i].id != id
    ensures WithoutList(s, id) == s
  {
    FilterAll(s, (x: WishList) => x.id != id);
  }

  /** The ids left after deleting `id` are the former ids other than `id`. */
  lemma WithoutItemIds(s: seq<WishItem>, id: Id)
    ensures forall k :: k in Ids(WithoutItem(s, id)) <==> k in Ids(s) && k != id
  {
    var w := WithoutItem(s, id);
    forall k
      ensures k in Ids(w) <==> k in Ids(s) && k != id
    {
      if k in Ids(w) {
        var i :| 0 <= i < |w| && Ids(w)[i] == k;
        assert w[i] in s;
        var j :| 0 <= j < |s| && s[j] == w[i];
        assert Ids(s)[j] == k;
      }
      if k in Ids(s) && k != id {
        var j :| 0 <= j < |s| && Ids(s)[j] == k;
        assert s[j] in w;
        var i :| 0 <= i < |w| && w[i] == s[j];
        assert Ids(w)[i] == k;
      }
    }
  }

  predicate Bought(item: WishItem) { item.isBought }
  predicate Remaining(item: WishItem) { !item.isBought }

  /** The three numbers of the summary card. */
  datatype Summary = Summary(total: nat, bought: nat, remaining: nat)

  /** The bought count is the number of bought positions. */
  lemma BoughtCount(s: seq<WishItem>)
    ensures |Filter(s, Bought)| == |set i | 0 <= i < |s| && s[i].isBought|
  {
    FilterLength(s, Bought);
    assert Passing(s, Bought, |s|) == set i | 0 <= i < |s| && s[i].isBought;
  }

  /** The remaining count is the number of unbought positions. */
  lemma RemainingCount(s: seq<WishItem>)
    ensures |Filter(s, Remaining)| == |set i | 0 <= i < |s| && !s[i].isBought|
  {
    FilterLength(s, Remaining);
    assert Passing(s, Remaining, |s|) == set i | 0 <= i < |s| && !s[i].isBought;
  }

  /** A filter is empty exactly when no element passes. */
  lemma FilterEmpty<T>(s: seq<T>, keep: T -> bool)
    ensures Filter(s, keep) == [] <==> forall i :: 0 <= i < |s| ==> !keep(s[i])
  {
    var r := Filter(s, keep);
    if r != [] {
      assert r[0] in r;
    }
    if k :| 0 <= k < |s| && keep(s[k]) {
      assert s[k] in r;
    }
  }

  /** `wishItems.length`, `wishItems.filter(item => item.is_bought).length` and
      `wishItems.filter(item => !item.is_bought).length`. */
  function Summarize(s: seq<WishItem>): (r: Summary)
    ensures r.total == |s| && r.bought + r.remaining == r.total
    ensures r.bought == |set i | 0 <= i < |s| && s[i].isBought|
    ensures r.remaining == |set i | 0 <= i < |s| && !s[i].isBought|
    ensures r.bought == 0 <==> forall i :: 0 <= i < |s| ==> !s[i].isBought
    ensures r.remaining == 0 <==> forall i :: 0 <= i < |s| ==> s[i].isBought
  {
    FilterComplement(s, Bought, Remaining);
    BoughtCount(s);
    RemainingCount(s);
    FilterEmpty(s, Bought);
    FilterEmpty(s, Remaining);
    Summary(|s|, |Filter(s, Bought)|, |Filter(s, Remaining)|)
  }
}
