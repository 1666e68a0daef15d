/** The item catalog of the server: creation with an optional request
    link, owner-checked partial update, lookups enriched with booking
    dates and comments, search, and comments by past bookers. */
module ItemService {
  import opened Results
  import opened Entities
  import opened Tables
  import opened Database
  import opened Seqs
  import opened Text
  import opened BookingRepository

  /** The fields a client supplies to create an item. */
  datatype ItemSave = ItemSave(name: string, description: string, available: bool, requestId: Option<int>)

  /** A partial update: `None` leaves the field as it is. */
  datatype ItemPatch = ItemPatch(name: Option<string>, description: Option<string>, available: Option<bool>)

  /** An item as returned to clients, with its booking dates and comments. */
  datatype ItemView = ItemView(
    item: Item,
    lastBooking: Option<int>,
    nextBooking: Option<int>,
    comments: Option<seq<Comment>>)

  /** Every table but the item table is untouched. */
  predicate OnlyItemsChanged(db: Db, db': Db)
  {
    db'.users == db.users && db'.bookings == db.bookings && db'.requests == db.requests && db'.comments == db.comments
  }

  function CreateItem(db: Db, userId: int, dto: ItemSave): (r: Result<(Db, Item)>)
    ensures userId !in db.users.rows ==> r == Fail(UserNotFound)
    ensures userId in db.users.rows && dto.requestId.Some? && dto.requestId.value !in db.requests.rows
            ==> r == Fail(ItemRequestNotFound)
    ensures r.Ok? <==> userId in db.users.rows && (dto.requestId.Some? ==> dto.requestId.value in db.requests.rows)
    ensures r.Ok? ==>
              var (db', item) := r.value;
              && item.owner == userId
              && item.name == dto.name && item.description == dto.description && item.available == dto.available
              && (dto.requestId.None? ==> item.request == Unlinked)
              && (dto.requestId.Some? ==> item.request == LinkedTo(dto.requestId.value))
              && item.id == db.items.nextId && item.id in db'.items.rows && db'.items.rows[item.id] == item
              && db'.items.rows.Keys == db.items.rows.Keys + {item.id}
              && (forall k :: k in db.items.rows && k != item.id ==> db'.items.rows[k] == db.items.rows[k])
              && OnlyItemsChanged(db, db')
  {
    var _ :- OrElse(db.users.Get(userId), UserNotFound);
    var link :- match dto.requestId
      case None => Ok(Unlinked)
      case Some(rid) => if rid in db.requests.rows then Ok(LinkedTo(rid)) else Fail(ItemRequestNotFound);
    var item := Item(db.items.nextId, dto.name, dto.description, dto.available, userId, link);
    Ok((db.(items := db.items.Insert(item)), item))
  }

  function UpdateItem(db: Db, userId: int, id: int, patch: ItemPatch): (r: Result<(Db, Item)>)
    ensures userId !in db.users.rows ==> r == Fail(UserNotFound)
    ensures userId in db.users.rows && id !in db.items.rows ==> r == Fail(ItemNotFound)
    ensures userId in db.users.rows && id in db.items.rows && db.items.rows[id].owner != userId
            ==> r == Fail(UserNotFound)
    ensures r.Ok? <==> userId in db.users.rows && id in db.items.rows && db.items.rows[id].owner == userId
    ensures r.Ok? ==>
              var (db', item) := r.value;
              var before := db.items.rows[id];
              && (patch.name.Some? ==> item.name == patch.name.value)
              && (patch.name.None? ==> item.name == before.name)
              && (patch.description.Some? ==> item.description == patch.description.value)
              && (patch.description.None? ==> item.description == before.description)
              && (patch.available.Some? ==> item.available == patch.available.value)
              && (patch.available.None? ==> item.available == before.available)
              && item.(name := before.name, description := before.description, available := before.available)
                 == before.(id := id)
              && db'.items.rows == db.items.rows[id := item]
              && db'.items.nextId == db.items.nextId
              && OnlyItemsChanged(db, db')
  {
    var user :- OrElse(db.users.Get(userId), UserNotFound);
    var stored :- OrElse(db.items.Get(id), ItemNotFound);
    :- Need(userId == stored.owner, UserNotFound);
    var item := stored.(
      id := id,
      owner := userId,
      name := if patch.name.Some? then patch.name.value else stored.name,
      description := if patch.description.Some? then patch.description.value else stored.description,
      available := if patch.available.Some? then patch.available.value else stored.available);
    Ok((db.(items := db.items.Put(id, item)), item))
  }

  // ---- Booking dates ----

  /** The starts of the bookings of `itemId` among `bookings`. */
  ghost function StartsOf(bookings: seq<Booking>, itemId: int): set<int>
  {
    set b | b in bookings && b.item == itemId :: b.start
  }

  /** The starts of the stored bookings of `itemId` that begin after `now`. */
  ghost function FutureStarts(db: Db, itemId: int, now: int): set<int>
  {
    set b | b in db.bookings.rows.Values && b.item == itemId && b.start > now :: b.start
  }

  /** The starts of the stored bookings of `itemId` that ended before `now`. */
  ghost function PastStarts(db: Db, itemId: int, now: int): set<int>
  {
    set b | b in db.bookings.rows.Values && b.item == itemId && b.end < now :: b.start
  }

  /** `w` is `seed` lowered to the least of `starts`: never later than the
      seed, never later than any start, and one of them. */
  ghost predicate LoweredTo(seed: Option<int>, w: Option<int>, starts: set<int>)
  {
    if seed.None? then w.None?
    else
      && w.Some? && w.value <= seed.value
      && (forall s :: s in starts ==> w.value <= s)
      && (w.value == seed.value || w.value in starts)
  }

  /** `w` is `seed` raised to the greatest of `starts`. */
  ghost predicate RaisedTo(seed: Option<int>, w: Option<int>, starts: set<int>)
  {
    if seed.None? then w.None?
    else
      && w.Some? && w.value >= seed.value
      && (forall s :: s in starts ==> w.value >= s)
      && (w.value == seed.value || w.value in starts)
  }

  /** The next-booking loop of `getAllItems`: a matching future booking
      replaces the date when the date is after its start. A null date is
      dereferenced by that comparison. */
  function MergeNext(cur: Option<int>, futures: seq<Booking>, itemId: int): (r: Result<Option<int>>)
    ensures r.Fail? <==> cur.None? && StartsOf(futures, itemId) != {}
    ensures r.Fail? ==> r.error == NullDereference
    ensures r.Ok? ==> LoweredTo(cur, r.value, StartsOf(futures, itemId))
    decreases |futures|
  {
    if |futures| == 0 then Ok(cur)
    else
      var b := futures[0];
      assert futures == [b] + futures[1..];
      assert StartsOf(futures, itemId) ==
             StartsOf(futures[1..], itemId) + (if b.item == itemId then {b.start} else {});
      if b.item != itemId then MergeNext(cur, futures[1..], itemId)
      else if cur.None? then Fail(NullDereference)
      else MergeNext(if cur.value > b.start then Some(b.start) else cur, futures[1..], itemId)
  }

  /** The last-booking loop of `getAllItems`: a matching past booking
      replaces the date when the date is before its start. */
  function MergeLast(cur: Option<int>, pasts: seq<Booking>, itemId: int): (r: Result<Option<int>>)
    ensures r.Fail? <==> cur.None? && StartsOf(pasts, itemId) != {}
    ensures r.Fail? ==> r.error == NullDereference
    ensures r.Ok? ==> RaisedTo(cur, r.value, StartsOf(pasts, itemId))
    decreases |pasts|
  {
    if |pasts| == 0 then Ok(cur)
    else
      var b := pasts[0];
      assert pasts == [b] + pasts[1..];
      assert StartsOf(pasts, itemId) ==
             StartsOf(pasts[1..], itemId) + (if b.item == itemId then {b.start} else {});
      if b.item != itemId then MergeLast(cur, pasts[1..], itemId)
      else if cur.None? then Fail(NullDereference)
      else MergeLast(if cur.value < b.start then Some(b.start) else cur, pasts[1..], itemId)
  }

  /** Selects the comments on `itemId`. */
  function OnItem(itemId: int): Comment -> bool
  {
    (c: Comment) => c.item == itemId
  }

  /** The comments of `itemId` among `comments`, each as often as there, in
      their order (`CommentsOfAppend`). */
  function CommentsOf(comments: seq<Comment>, itemId: int): (r: seq<Comment>)
    ensures |r| <= |comments|
    ensures forall c :: c in r <==> c in comments && c.item == itemId
    ensures forall c :: multiset(r)[c] == if c.item == itemId then multiset(comments)[c] else 0
  {
    Filter(comments, OnItem(itemId))
  }

  /** The comments of a concatenation are those of each part, in order; a
      single comment contributes itself exactly when it is on the item. */
  lemma CommentsOfAppend(a: seq<Comment>, b: seq<Comment>, itemId: int)
    ensures CommentsOf(a + b, itemId) == CommentsOf(a, itemId) + CommentsOf(b, itemId)
    ensures forall c :: CommentsOf([c], itemId) == if c.item == itemId then [c] else []
  {
    FilterAppend(a, b, OnItem(itemId));
    forall c ensures CommentsOf([c], itemId) == if c.item == itemId then [c] else [] {
      assert [c][1..] == [];
    }
  }

  /** The comment loop of `getAllItems`: matching comments are appended to
      the item's list, which is created on the first match. */
  function MergeComments(cur: Option<seq<Comment>>, comments: seq<Comment>, itemId: int): (r: Option<seq<Comment>>)
    ensures cur.None? && |CommentsOf(comments, itemId)| == 0 ==> r == None
    ensures cur.Some? || |CommentsOf(comments, itemId)| > 0 ==> r == Some(OrEmpty(cur) + CommentsOf(comments, itemId))
    decreases |comments|
  {
    if |comments| == 0 then
      assert OrEmpty(cur) + [] == OrEmpty(cur);
      cur
    else
      CommentsOfCons(comments, itemId);
      if comments[0].item == itemId then
        var base := OrEmpty(cur);
        AppendAssoc(base, [comments[0]], CommentsOf(comments[1..], itemId));
        MergeComments(Some(base + [comments[0]]), comments[1..], itemId)
      else
        assert [] + CommentsOf(comments[1..], itemId) == CommentsOf(comments[1..], itemId);
        MergeComments(cur, comments[1..], itemId)
  }

  /** The comments of a non-empty list: the head's, then the tail's. */
  lemma CommentsOfCons(comments: seq<Comment>, itemId: int)
    requires |comments| > 0
    ensures CommentsOf(comments, itemId) ==
            (if comments[0].item == itemId then [comments[0]] else []) + CommentsOf(comments[1..], itemId)
  {
  }

  function OrEmpty<T>(o: Option<seq<T>>): seq<T>
  {
    if o.Some? then o.value else []
  }

  /** `cur` with `extra` appended, where a missing list is created only
      when there is something to append. */
  function Appended(cur: Option<seq<Comment>>, extra: seq<Comment>): Option<seq<Comment>>
  {
    if cur.None? && |extra| == 0 then None else Some(OrEmpty(cur) + extra)
  }

  /** The comments whose item is one of `ids`, in their order. */
  function CommentsIn(comments: seq<Comment>, ids: seq<int>): (r: seq<Comment>)
    ensures forall c :: c in r <==> c in comments && c.item in ids
    decreases |comments|
  {
    if |comments| == 0 then []
    else
      assert comments == [comments[0]] + comments[1..];
      (if comments[0].item in ids then [comments[0]] else []) + CommentsIn(comments[1..], ids)
  }

  /** Narrowing the comments to a set of items first does not change the
      comments of any one item of that set. */
  lemma {:induction false} CommentsOfIn(comments: seq<Comment>, ids: seq<int>, itemId: int)
    requires itemId in ids
    ensures CommentsOf(CommentsIn(comments, ids), itemId) == CommentsOf(comments, itemId)
    decreases |comments|
  {
    if |comments| > 0 {
      CommentsOfIn(comments[1..], ids, itemId);
      var c := comments[0];
      var rest := CommentsIn(comments[1..], ids);
      if c.item in ids {
        assert CommentsIn(comments, ids) == [c] + rest;
        assert ([c] + rest)[1..] == rest;
      } else {
        assert CommentsIn(comments, ids) == [] + rest;
        assert [] + rest == rest;
      }
    }
  }

  // ---- The per-item merge of getAllItems ----

  /** The merge of one view hits a null date. */
  ghost predicate Blocked(v: ItemView, futures: seq<Booking>, pasts: seq<Booking>)
  {
    || (v.nextBooking.None? && StartsOf(futures, v.item.id) != {})
    || (v.lastBooking.None? && StartsOf(pasts, v.item.id) != {})
  }

  /** `w` is `v` after its dates and comments have been merged. */
  ghost predicate MergedFrom(v: ItemView, w: ItemView, futures: seq<Booking>, pasts: seq<Booking>, comments: seq<Comment>)
  {
    && w.item == v.item
    && LoweredTo(v.nextBooking, w.nextBooking, StartsOf(futures, v.item.id))
    && RaisedTo(v.lastBooking, w.lastBooking, StartsOf(pasts, v.item.id))
    && w.comments == Appended(v.comments, CommentsOf(comments, v.item.id))
  }

  /** One turn of the outer loop of `getAllItems`. */
  function MergeView(v: ItemView, futures: seq<Booking>, pasts: seq<Booking>, comments: seq<Comment>): (r: Result<ItemView>)
    ensures r.Fail? <==> Blocked(v, futures, pasts)
    ensures r.Fail? ==> r.error == NullDereference
    ensures r.Ok? ==> MergedFrom(v, r.value, futures, pasts, comments)
  {
    var next :- MergeNext(v.nextBooking, futures, v.item.id);
    var last :- MergeLast(v.lastBooking, pasts, v.item.id);
    Ok(v.(nextBooking := next, lastBooking := last, comments := MergeComments(v.comments, comments, v.item.id)))
  }

  /** The outer loop of `getAllItems`: the first null date aborts the call. */
  function MergeAll(views: seq<ItemView>, futures: seq<Booking>, pasts: seq<Booking>, comments: seq<Comment>): (r: Result<seq<ItemView>>)
    ensures r.Fail? <==> exists k :: 0 <= k < |views| && Blocked(views[k], futures, pasts)
    ensures r.Fail? ==> r.error == NullDereference
    ensures r.Ok? ==> |r.value| == |views|
    ensures r.Ok? ==> forall k :: 0 <= k < |views| ==> MergedFrom(views[k], r.value[k], futures, pasts, comments)
    decreases |views|
  {
    if |views| == 0 then Ok([])
    else
      SomeCons(views, v => Blocked(v, futures, pasts));
      var head :- MergeView(views[0], futures, pasts, comments);
      var tail :- MergeAll(views[1..], futures, pasts, comments);
      PointwiseCons(views, head, tail, (v, w) => MergedFrom(v, w, futures, pasts, comments));
      Ok([head] + tail)
  }

  // ---- Listings ----

  /** The view the one-argument mapper gives each item before the merge:
      its dates and comments come from `seed`. */
  function SeedViews(items: seq<Item>, seed: Item -> ItemView): (r: seq<ItemView>)
    ensures |r| == |items|
    ensures forall k :: 0 <= k < |items| ==> r[k] == seed(items[k]).(item := items[k])
  {
    seq(|items|, k requires 0 <= k < |items| => seed(items[k]).(item := items[k]))
  }

  /** The future bookings the listing loads, restricted to one of its items,
      are that item's future bookings. */
  lemma FutureQueryStarts(db: Db, ids: seq<int>, now: int, itemId: int)
    requires itemId in ids
    ensures StartsOf(FindAllByItemIdInAndStartAfter(FindAll(db.bookings), ids, now), itemId) == FutureStarts(db, itemId, now)
  {
  }

  /** The same for the past bookings. */
  lemma PastQueryStarts(db: Db, ids: seq<int>, now: int, itemId: int)
    requires itemId in ids
    ensures StartsOf(FindAllByItemIdInAndEndBefore(FindAll(db.bookings), ids, now), itemId) == PastStarts(db, itemId, now)
  {
  }

  /** What `getAllItems` promises about the view it returns for `item`. */
  ghost predicate ListedView(db: Db, now: int, seed: Item -> ItemView, item: Item, v: ItemView)
  {
    && v.item == item
    && LoweredTo(seed(item).nextBooking, v.nextBooking, FutureStarts(db, item.id, now))
    && RaisedTo(seed(item).lastBooking, v.lastBooking, PastStarts(db, item.id, now))
    && v.comments == Appended(seed(item).comments, CommentsOf(FindAll(db.comments), item.id))
  }

  /** The merge of `item` hits a null date of its seed view. */
  ghost predicate SeedBlocked(db: Db, now: int, seed: Item -> ItemView, item: Item)
  {
    || (seed(item).nextBooking.None? && FutureStarts(db, item.id, now) != {})
    || (seed(item).lastBooking.None? && PastStarts(db, item.id, now) != {})
  }

  /** The owner's item listing: every owned item, each with its next booking
      lowered to the earliest future start, its last booking raised to the
      latest past start, and its comments appended. `seed` stands for the
      one-argument mapper, whose dates a matching booking compares against. */
  function GetAllItems(db: Db, userId: int, now: int, seed: Item -> ItemView): (r: Result<seq<ItemView>>)
    ensures userId !in db.users.rows ==> r == Fail(UserNotFound)
    ensures userId in db.users.rows ==>
              (r.Fail? <==> exists i :: i in db.items.rows.Values && i.owner == userId && SeedBlocked(db, now, seed, i))
    ensures userId in db.users.rows && r.Fail? ==> r.error == NullDereference
    ensures r.Ok? ==> |r.value| == |OwnedItems(db, userId)|
    ensures r.Ok? ==> forall k :: 0 <= k < |r.value| ==> ListedView(db, now, seed, OwnedItems(db, userId)[k], r.value[k])
  {
    var _ :- OrElse(db.users.Get(userId), UserNotFound);
    var owned := OwnedItems(db, userId);
    var r := MergeOwned(db, owned, now, seed);
    OwnedBlocked(db, owned, userId, now, seed);
    r
  }

  /** Some owned item is blocked exactly when some position of the owned
      list is. */
  lemma OwnedBlocked(db: Db, owned: seq<Item>, userId: int, now: int, seed: Item -> ItemView)
    requires forall i :: i in owned <==> i in db.items.rows.Values && i.owner == userId
    ensures (exists k :: 0 <= k < |owned| && SeedBlocked(db, now, seed, owned[k]))
            <==> exists i :: i in db.items.rows.Values && i.owner == userId && SeedBlocked(db, now, seed, i)
  {
    if exists i :: i in db.items.rows.Values && i.owner == userId && SeedBlocked(db, now, seed, i) {
      var i :| i in db.items.rows.Values && i.owner == userId && SeedBlocked(db, now, seed, i);
      assert i in owned;
      var k :| 0 <= k < |owned| && owned[k] == i;
    }
    if exists k :: 0 <= k < |owned| && SeedBlocked(db, now, seed, owned[k]) {
      var k :| 0 <= k < |owned| && SeedBlocked(db, now, seed, owned[k]);
      assert owned[k] in owned;
    }
  }

  /** The merge loop over `owned`, with the bookings and comments the
      listing loads for those items. */
  function MergeOwned(db: Db, owned: seq<Item>, now: int, seed: Item -> ItemView): (r: Result<seq<ItemView>>)
    ensures r.Fail? <==> exists k :: 0 <= k < |owned| && SeedBlocked(db, now, seed, owned[k])
    ensures r.Fail? ==> r.error == NullDereference
    ensures r.Ok? ==> |r.value| == |owned|
    ensures r.Ok? ==> forall k :: 0 <= k < |owned| ==> ListedView(db, now, seed, owned[k], r.value[k])
  {
    var ids := IdsOf(owned);
    var bookings := FindAll(db.bookings);
    var futures := FindAllByItemIdInAndStartAfter(bookings, ids, now);
    var pasts := FindAllByItemIdInAndEndBefore(bookings, ids, now);
    var comments := CommentsIn(FindAll(db.comments), ids);
    var views := SeedViews(owned, seed);
    var r := MergeAll(views, futures, pasts, comments);
    LoadedListsAgree(db, ids, now);
    ListingFacts(db, now, seed, owned, ids, futures, pasts, comments, views, r);
    r
  }

  /** What the listing loads for its items agrees, item by item, with the
      tables. */
  lemma LoadedListsAgree(db: Db, ids: seq<int>, now: int)
    ensures forall id :: id in ids ==>
              StartsOf(FindAllByItemIdInAndStartAfter(FindAll(db.bookings), ids, now), id) == FutureStarts(db, id, now)
    ensures forall id :: id in ids ==>
              StartsOf(FindAllByItemIdInAndEndBefore(FindAll(db.bookings), ids, now), id) == PastStarts(db, id, now)
    ensures forall id :: id in ids ==>
              CommentsOf(CommentsIn(FindAll(db.comments), ids), id) == CommentsOf(FindAll(db.comments), id)
  {
    forall id | id in ids
      ensures StartsOf(FindAllByItemIdInAndStartAfter(FindAll(db.bookings), ids, now), id) == FutureStarts(db, id, now)
      ensures StartsOf(FindAllByItemIdInAndEndBefore(FindAll(db.bookings), ids, now), id) == PastStarts(db, id, now)
      ensures CommentsOf(CommentsIn(FindAll(db.comments), ids), id) == CommentsOf(FindAll(db.comments), id)
    {
      FutureQueryStarts(db, ids, now, id);
      PastQueryStarts(db, ids, now, id);
      CommentsOfIn(FindAll(db.comments), ids, id);
    }
  }

  lemma ListingFacts(db: Db, now: int, seed: Item -> ItemView, owned: seq<Item>, ids: seq<int>,
                     futures: seq<Booking>, pasts: seq<Booking>, comments: seq<Comment>,
                     views: seq<ItemView>, r: Result<seq<ItemView>>)
    requires ids == IdsOf(owned)
    requires forall id :: id in ids ==> StartsOf(futures, id) == FutureStarts(db, id, now)
    requires forall id :: id in ids ==> StartsOf(pasts, id) == PastStarts(db, id, now)
    requires forall id :: id in ids ==> CommentsOf(comments, id) == CommentsOf(FindAll(db.comments), id)
    requires views == SeedViews(owned, seed)
    requires r == MergeAll(views, futures, pasts, comments)
    ensures r.Fail? <==> exists k :: 0 <= k < |owned| && SeedBlocked(db, now, seed, owned[k])
    ensures r.Ok? ==> forall k :: 0 <= k < |r.value| ==> ListedView(db, now, seed, owned[k], r.value[k])
  {
    forall k | 0 <= k < |owned|
      ensures Blocked(views[k], futures, pasts) <==> SeedBlocked(db, now, seed, owned[k])
      ensures forall w :: MergedFrom(views[k], w, futures, pasts, comments) ==> ListedView(db, now, seed, owned[k], w)
    {
      var id := owned[k].id;
      assert id in ids by {
        assert ids[k] == id;
      }
      ViewFacts(db, now, seed, owned[k], futures, pasts, comments, views[k]);
    }
    if r.Ok? {
      forall k | 0 <= k < |r.value|
        ensures ListedView(db, now, seed, owned[k], r.value[k])
      {
        assert MergedFrom(views[k], r.value[k], futures, pasts, comments);
      }
    }
  }

  /** Once the loaded lists agree with the tables on `item`, merging its
      seed view is what the listing promises. */
  lemma ViewFacts(db: Db, now: int, seed: Item -> ItemView, item: Item,
                  futures: seq<Booking>, pasts: seq<Booking>, comments: seq<Comment>, v: ItemView)
    requires StartsOf(futures, item.id) == FutureStarts(db, item.id, now)
    requires StartsOf(pasts, item.id) == PastStarts(db, item.id, now)
    requires CommentsOf(comments, item.id) == CommentsOf(FindAll(db.comments), item.id)
    requires v == seed(item).(item := item)
    ensures Blocked(v, futures, pasts) <==> SeedBlocked(db, now, seed, item)
    ensures forall w :: MergedFrom(v, w, futures, pasts, comments) ==> ListedView(db, now, seed, item, w)
  {
  }

  // ---- Single item ----

  /** The first and the last element of `starts`, or nothing when empty. */
  function FirstOf(starts: seq<int>): Option<int>
  {
    if |starts| == 0 then None else Some(starts[0])
  }

  function LastOf(starts: seq<int>): Option<int>
  {
    if |starts| == 0 then None else Some(starts[|starts| - 1])
  }

  function StartsIn(bookings: seq<Booking>): (r: seq<int>)
    ensures |r| == |bookings|
    ensures forall k :: 0 <= k < |bookings| ==> r[k] == bookings[k].start
  {
    seq(|bookings|, k requires 0 <= k < |bookings| => bookings[k].start)
  }

  /** `w` is the least of `starts`, or nothing when there are none. */
  ghost predicate LeastOf(w: Option<int>, starts: set<int>)
  {
    && (w.None? <==> starts == {})
    && (w.Some? ==> w.value in starts && forall s :: s in starts ==> w.value <= s)
  }

  /** `w` is the greatest of `starts`, or nothing when there are none. */
  ghost predicate GreatestOf(w: Option<int>, starts: set<int>)
  {
    && (w.None? <==> starts == {})
    && (w.Some? ==> w.value in starts && forall s :: s in starts ==> s <= w.value)
  }

  /** The first and last starts of an ascending booking list are its least
      and greatest starts. */
  lemma {:induction false} EndsOfAscending(bs: seq<Booking>, starts: set<int>)
    requires SortedAsc(bs, StartOf)
    requires starts == set b | b in bs :: b.start
    ensures LeastOf(FirstOf(StartsIn(bs)), starts)
    ensures GreatestOf(LastOf(StartsIn(bs)), starts)
  {
    if |bs| > 0 {
      assert bs[0].start in starts;
      assert bs[|bs| - 1].start in starts;
      forall s | s in starts
        ensures bs[0].start <= s <= bs[|bs| - 1].start
      {
        var b :| b in bs && b.start == s;
        var k :| 0 <= k < |bs| && bs[k] == b;
        assert StartOf(bs[0]) <= StartOf(bs[k]) <= StartOf(bs[|bs| - 1]);
      }
    }
  }

  /** One item with its booking dates and its comments, as written: the next
      booking is the earliest future start and the last booking is the last
      element of that same future list, that is the latest future start. */
  function GetItemById(db: Db, id: int, now: int): (r: Result<ItemView>)
    ensures id !in db.items.rows <==> r == Fail(ItemNotFound)
    ensures r.Ok? ==> r.value.item == db.items.rows[id]
    ensures r.Ok? ==> LeastOf(r.value.nextBooking, FutureStarts(db, id, now))
    ensures r.Ok? ==> GreatestOf(r.value.lastBooking, FutureStarts(db, id, now))
    ensures r.Ok? ==> r.value.comments.Some?
    ensures r.Ok? ==> forall c :: c in r.value.comments.value <==> c in db.comments.rows.Values && c.item == id
    ensures r.Ok? ==> forall c :: multiset(r.value.comments.value)[c] == if c.item == id then Occurrences(db.comments.rows, c) else 0
  {
    var item :- OrElse(db.items.Get(id), ItemNotFound);
    var futures := FindAllByItemIdAndStartAfterAsc(FindAll(db.bookings), id, now);
    var starts := StartsIn(futures);
    EndsOfAscending(futures, FutureStarts(db, id, now));
    Ok(ItemView(item, LastOf(starts), FirstOf(starts), Some(CommentsOf(FindAll(db.comments), id))))
  }

  /** A past booking without any future one leaves the last booking of the
      single-item view empty, where the latest past start is meant. */
  lemma LastBookingAsWrittenIgnoresPast()
    ensures var item := Item(1, "drill", "cordless", true, 1, Unlinked);
            var past := Booking(1, 0, 10, 1, 2, Approved);
            var db := EmptyDb.(items := Table(map[1 := item], 2), bookings := Table(map[1 := past], 2));
            && PastStarts(db, 1, 20) == {0}
            && GetItemById(db, 1, 20).Ok?
            && GetItemById(db, 1, 20).value.lastBooking == None
  {
    var item := Item(1, "drill", "cordless", true, 1, Unlinked);
    var past := Booking(1, 0, 10, 1, 2, Approved);
    var db := EmptyDb.(items := Table(map[1 := item], 2), bookings := Table(map[1 := past], 2));
    assert db.bookings.rows[1] == past;
    assert forall b :: b in db.bookings.rows.Values ==> b == past;
    assert FutureStarts(db, 1, 20) == {};
  }

  /** The single-item view with the last booking taken, as in the owner's
      listing, as the latest start among the item's ended bookings. */
  function GetItemByIdCorrected(db: Db, id: int, now: int): (r: Result<ItemView>)
    ensures id !in db.items.rows <==> r == Fail(ItemNotFound)
    ensures r.Ok? ==> r.value.item == db.items.rows[id]
    ensures r.Ok? ==> LeastOf(r.value.nextBooking, FutureStarts(db, id, now))
    ensures r.Ok? ==> GreatestOf(r.value.lastBooking, PastStarts(db, id, now))
    ensures r.Ok? ==> r.value.comments.Some?
    ensures r.Ok? ==> forall c :: c in r.value.comments.value <==> c in db.comments.rows.Values && c.item == id
    ensures r.Ok? ==> forall c :: multiset(r.value.comments.value)[c] == if c.item == id then Occurrences(db.comments.rows, c) else 0
  {
    var item :- OrElse(db.items.Get(id), ItemNotFound);
    var futures := FindAllByItemIdAndStartAfterAsc(FindAll(db.bookings), id, now);
    EndsOfAscending(futures, FutureStarts(db, id, now));
    Ok(ItemView(item, LatestPastStart(db, id, now), FirstOf(StartsIn(futures)), Some(CommentsOf(FindAll(db.comments), id))))
  }

  /** The latest start among the ended bookings of `itemId`: the head of
      its past bookings ordered by start, latest first. */
  function LatestPastStart(db: Db, itemId: int, now: int): (w: Option<int>)
    ensures GreatestOf(w, PastStarts(db, itemId, now))
  {
    LatestPastIsHead(db, itemId, now);
    FirstOf(StartsIn(FindAllByItemIdInAndEndBefore(FindAll(db.bookings), [itemId], now)))
  }

  lemma LatestPastIsHead(db: Db, itemId: int, now: int)
    ensures GreatestOf(FirstOf(StartsIn(FindAllByItemIdInAndEndBefore(FindAll(db.bookings), [itemId], now))),
                       PastStarts(db, itemId, now))
  {
    PastQueryStarts(db, [itemId], now, itemId);
    PastHead(FindAll(db.bookings), itemId, now, PastStarts(db, itemId, now));
  }

  /** The head of the past-bookings query for one item holds its latest start. */
  lemma PastHead(rows: seq<Booking>, itemId: int, now: int, starts: set<int>)
    requires starts == StartsOf(FindAllByItemIdInAndEndBefore(rows, [itemId], now), itemId)
    ensures GreatestOf(FirstOf(StartsIn(FindAllByItemIdInAndEndBefore(rows, [itemId], now))), starts)
  {
    var pasts := FindAllByItemIdInAndEndBefore(rows, [itemId], now);
    assert forall b :: b in pasts ==> b.item == itemId;
    HeadOfDescending(pasts, itemId, starts);
  }

  /** The head of a list ordered by start, latest first, holds the greatest
      start. */
  lemma {:induction false} HeadOfDescending(bs: seq<Booking>, itemId: int, starts: set<int>)
    requires SortedDesc(bs, StartOf)
    requires forall b :: b in bs ==> b.item == itemId
    requires starts == StartsOf(bs, itemId)
    ensures GreatestOf(FirstOf(StartsIn(bs)), starts)
  {
    if |bs| > 0 {
      assert bs[0].start in starts;
      forall s | s in starts
        ensures s <= bs[0].start
      {
        var b :| b in bs && b.item == itemId && b.start == s;
        var k :| 0 <= k < |bs| && bs[k] == b;
        assert StartOf(bs[0]) >= StartOf(bs[k]);
      }
    }
  }

  // ---- Search, comments, request links ----

  /** Search over the catalog: empty or all-whitespace text finds nothing;
      otherwise the available items whose name or description contains the
      text, ignoring case. */
  function SearchItems(db: Db, text: string): (r: seq<Item>)
    ensures IsBlank(text) ==> r == []
    ensures !IsBlank(text) ==>
              forall i :: i in r <==> && i in db.items.rows.Values && i.available
                                      && (ContainsIgnoreCase(i.name, text) || ContainsIgnoreCase(i.description, text))
    ensures !IsBlank(text) ==>
              forall i :: multiset(r)[i] == if i.available && (ContainsIgnoreCase(i.name, text) || ContainsIgnoreCase(i.description, text))
                                            then Occurrences(db.items.rows, i) else 0
  {
    if |text| == 0 || IsBlank(text) then []
    else Filter(FindAll(db.items), (i: Item) => i.available && (ContainsIgnoreCase(i.name, text) || ContainsIgnoreCase(i.description, text)))
  }

  /** The caller has a booking of the item that ended before `now`. */
  ghost predicate HasEndedBooking(db: Db, userId: int, itemId: int, now: int)
  {
    exists b :: b in db.bookings.rows.Values && b.booker == userId && b.item == itemId && b.end < now
  }

  /** A comment by a past booker: the user, then the item, then an ended
      booking of that item by that user must exist. The stored comment
      carries the author's current name. */
  function AddComment(db: Db, userId: int, itemId: int, text: string, now: int): (r: Result<(Db, Comment)>)
    ensures userId !in db.users.rows ==> r == Fail(UserNotFound)
    ensures userId in db.users.rows && itemId !in db.items.rows ==> r == Fail(ItemNotFound)
    ensures userId in db.users.rows && itemId in db.items.rows && !HasEndedBooking(db, userId, itemId, now)
            ==> r == Fail(Condition)
    ensures r.Ok? <==> userId in db.users.rows && itemId in db.items.rows && HasEndedBooking(db, userId, itemId, now)
    ensures r.Ok? ==>
              var (db', c) := r.value;
              && c == Comment(db.comments.nextId, text, itemId, userId, db.users.rows[userId].name)
              && db'.comments == db.comments.Insert(c)
              && db'.users == db.users && db'.items == db.items
              && db'.bookings == db.bookings && db'.requests == db.requests
  {
    var user :- OrElse(db.users.Get(userId), UserNotFound);
    var _ :- OrElse(db.items.Get(itemId), ItemNotFound);
    var booking := FindByBookerIdAndItemIdAndEndBefore(FindAll(db.bookings), userId, itemId, now);
    :- Need(booking.Some?, Condition);
    var comment := Comment(db.comments.nextId, text, itemId, userId, user.name);
    Ok((db.(comments := db.comments.Insert(comment)), comment))
  }

  /** The items created in answer to request `requestId`, each stored row
      once. */
  function GetItemsByRequestId(db: Db, requestId: int): (r: seq<Item>)
    ensures forall i :: i in r <==> i in db.items.rows.Values && i.request == LinkedTo(requestId)
    ensures forall i :: multiset(r)[i] == if i.request == LinkedTo(requestId) then Occurrences(db.items.rows, i) else 0
  {
    Filter(FindAll(db.items), (i: Item) => i.request == LinkedTo(requestId))
  }

  // ---- Properties across operations ----

  /** An item created with request `rid` is listed among the items of that
      request. */
  lemma CreatedItemAnswersRequest(db: Db, userId: int, dto: ItemSave, rid: int)
    requires dto.requestId == Some(rid)
    requires CreateItem(db, userId, dto).Ok?
    ensures var (db', item) := CreateItem(db, userId, dto).value;
            item in GetItemsByRequestId(db', rid)
  {
    var (db', item) := CreateItem(db, userId, dto).value;
    assert db'.items.rows[item.id] == item;
  }

  /** An item created without a request answers no request. */
  lemma UnlinkedItemAnswersNoRequest(db: Db, userId: int, dto: ItemSave, rid: int)
    requires dto.requestId.None?
    requires CreateItem(db, userId, dto).Ok?
    ensures var (db', item) := CreateItem(db, userId, dto).value;
            item !in GetItemsByRequestId(db', rid)
  {
  }

  /** A past booker's comment is accepted and shows up on the item's own
      view. */
  lemma AddedCommentIsShown(db: Db, userId: int, itemId: int, text: string, now: int, later: int)
    requires userId in db.users.rows && itemId in db.items.rows
    requires HasEndedBooking(db, userId, itemId, now)
    ensures AddComment(db, userId, itemId, text, now).Ok?
    ensures var (db', c) := AddComment(db, userId, itemId, text, now).value;
            && GetItemByIdCorrected(db', itemId, later).Ok?
            && c in GetItemByIdCorrected(db', itemId, later).value.comments.value
  {
    var (db', c) := AddComment(db, userId, itemId, text, now).value;
    assert db'.comments.rows[db.comments.nextId] == c;
  }

  /** An accepted update is what the item's own view shows afterwards. */
  lemma UpdatedItemIsShown(db: Db, userId: int, id: int, patch: ItemPatch, now: int)
    requires UpdateItem(db, userId, id, patch).Ok?
    ensures var (db', item) := UpdateItem(db, userId, id, patch).value;
            && GetItemByIdCorrected(db', id, now).Ok?
            && GetItemByIdCorrected(db', id, now).value.item == item
  {
  }

  /** A patch with no field present leaves the database as it was, provided
      the stored item carries its own key as id. */
  lemma EmptyPatchChangesNothing(db: Db, userId: int, id: int)
    requires UpdateItem(db, userId, id, ItemPatch(None, None, None)).Ok?
    requires db.items.rows[id].id == id
    ensures UpdateItem(db, userId, id, ItemPatch(None, None, None)).value.0 == db
  {
    var (db', item) := UpdateItem(db, userId, id, ItemPatch(None, None, None)).value;
    assert item == db.items.rows[id];
    assert db'.items.rows == db.items.rows;
  }

  /** An available item whose name contains the text is found once created;
      an unavailable one never is. */
  lemma CreatedItemIsFound(db: Db, userId: int, dto: ItemSave, text: string)
    requires CreateItem(db, userId, dto).Ok?
    requires !IsBlank(text)
    requires ContainsIgnoreCase(dto.name, text)
    ensures var (db', item) := CreateItem(db, userId, dto).value;
            (item in SearchItems(db', text) <==> dto.available)
  {
    var (db', item) := CreateItem(db, userId, dto).value;
    assert item in db'.items.rows.Values by {
      assert db'.items.rows[item.id] == item;
    }
  }

  /** A user who has never booked the item cannot comment on it, whatever
      the time. */
  lemma NonBookerCannotComment(db: Db, userId: int, itemId: int, text: string, now: int)
    requires forall b :: b in db.bookings.rows.Values ==> b.booker != userId
    ensures AddComment(db, userId, itemId, text, now).Fail?
  {
  }
}
