/** The relational store behind the server's services, one table per
    entity. Identity columns start at 1. */
module Database {
  import opened Entities
  import opened Tables
  import opened Seqs

  datatype Db = Db(
    users: Table<User>,
    items: Table<Item>,
    bookings: Table<Booking>,
    requests: Table<ItemRequest>,
    comments: Table<Comment>)

  const EmptyDb: Db := Db(Table(map[], 1), Table(map[], 1), Table(map[], 1), Table(map[], 1), Table(map[], 1))

  /** Each stored request sits under its own id, as a loaded entity does. */
  ghost predicate RequestsKeyed(db: Db)
  {
    forall k :: k in db.requests.rows ==> db.requests.rows[k].id == k
  }

  /** `userId` owns a stored item whose id is `itemId`. */
  predicate OwnsItem(db: Db, userId: int, itemId: int)
  {
    exists i :: i in db.items.rows.Values && i.owner == userId && i.id == itemId
  }

  /** The items of `userId`, each stored row once, in table order. */
  function OwnedItems(db: Db, userId: int): (r: seq<Item>)
    ensures forall i :: i in r <==> i in db.items.rows.Values && i.owner == userId
    ensures forall i :: multiset(r)[i] == if i.owner == userId then Occurrences(db.items.rows, i) else 0
  {
    Filter(FindAll(db.items), (i: Item) => i.owner == userId)
  }

  function IdsOf(items: seq<Item>): (ids: seq<int>)
    ensures |ids| == |items|
    ensures forall k :: 0 <= k < |items| ==> ids[k] == items[k].id
  {
    seq(|items|, k requires 0 <= k < |items| => items[k].id)
  }

  /** The ids of the items `userId` owns. */
  lemma OwnedIdsAreOwned(db: Db, userId: int)
    ensures forall id :: id in IdsOf(OwnedItems(db, userId)) <==> OwnsItem(db, userId, id)
  {
    forall id
      ensures id in IdsOf(OwnedItems(db, userId)) <==> OwnsItem(db, userId, id)
    {
      OwnedIdIsOwned(db, OwnedItems(db, userId), userId, id);
    }
  }

  lemma {:induction false} OwnedIdIsOwned(db: Db, owned: seq<Item>, userId: int, id: int)
    requires forall i :: i in owned <==> i in db.items.rows.Values && i.owner == userId
    ensures id in IdsOf(owned) <==> OwnsItem(db, userId, id)
  {
    var ids := IdsOf(owned);
    if id in ids {
      var k :| 0 <= k < |ids| && ids[k] == id;
      assert owned[k] in owned;
    }
    if OwnsItem(db, userId, id) {
      var i :| i in db.items.rows.Values && i.owner == userId && i.id == id;
      assert i in owned;
      var k :| 0 <= k < |owned| && owned[k] == i;
      assert ids[k] == id;
    }
  }
}
