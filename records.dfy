/** The two record kinds the pages work on, as the store returns them. */
module Records {

  /** Row keys are opaque strings assigned by the store. */
  type Id = string

  /** The instant a `created_at` / `updated_at` column denotes. */
  type Timestamp = int

  datatype Option<+T> = None | Some(value: T)

  /** A row of the `wish_lists` table. */
  datatype WishList = WishList(
    id: Id,
    name: string,
    isChristmas: bool,
    folderId: Option<Id>,
    createdAt: Timestamp,
    updatedAt: Timestamp)

  /** A row of the `wish_items` table; `priority` orders the items of one list. */
  datatype WishItem = WishItem(
    id: Id,
    wishListId: Id,
    name: string,
    link: Option<string>,
    details: Option<string>,
    isBought: bool,
    starred: bool,
    priority: int,
    createdAt: Timestamp,
    updatedAt: Timestamp)

  /** The row the store creates for an inserted list: every column the insert
      does not send takes the table's default. */
  function NewListRow(id: Id, name: string, now: Timestamp): (r: WishList)
    ensures r.id == id && r.name == name
    ensures !r.isChristmas && r.folderId == None
    ensures r.createdAt == now && r.updatedAt == now
  {
    WishList(id, name, false, None, now, now)
  }

  /** The row the store creates for an inserted item. */
  function NewItemRow(id: Id, listId: Id, name: string, link: Option<string>, priority: int, now: Timestamp): (r: WishItem)
    ensures r.id == id && r.wishListId == listId && r.name == name && r.link == link && r.priority == priority
    ensures !r.isBought && !r.starred && r.details == None
    ensures r.createdAt == now && r.updatedAt == now
  {
    WishItem(id, listId, name, link, None, false, false, priority, now, now)
  }
}
