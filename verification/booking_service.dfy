/** The booking ledger: creation, owner approval, guarded lookup and the
    state-filtered listings for a booker and for an owner. `now` stands for
    the server clock at the time of the call. */
module BookingService {
  import opened Results
  import opened Entities
  import opened Tables
  import opened Database
  import opened Seqs
  import opened BookingRepository

  datatype BookingInput = BookingInput(itemId: int, start: int, end: int)

  /** The values of the `state` query parameter. `OtherState` stands for
      any constant of the enumeration that the listings do not handle,
      such as TEST. */
  datatype BookingState = All | Current | Past | Future | WaitingState | RejectedState | OtherState(name: string)

  /** Which bookings a state selects, stated independently of the finders. */
  predicate InState(b: Booking, state: BookingState, now: int)
  {
    match state
    case All => true
    case Current => b.start < now < b.end
    case Past => b.end < now
    case Future => now < b.start
    case WaitingState => b.status == Waiting
    case RejectedState => b.status == Rejected
    case OtherState(_) => false
  }

  /** Every table but the booking table is untouched. */
  predicate OnlyBookingsChanged(db: Db, db': Db)
  {
    db'.users == db.users && db'.items == db.items && db'.requests == db.requests && db'.comments == db.comments
  }

  function CreateBooking(db: Db, userId: int, input: BookingInput): (r: Result<(Db, Booking)>)
    ensures userId !in db.users.rows ==> r == Fail(UserNotFound)
    ensures userId in db.users.rows && input.itemId !in db.items.rows ==> r == Fail(ItemNotFound)
    ensures userId in db.users.rows && input.itemId in db.items.rows && !db.items.rows[input.itemId].available
            ==> r == Fail(Condition)
    ensures r.Ok? <==> userId in db.users.rows && input.itemId in db.items.rows && db.items.rows[input.itemId].available
    ensures r.Ok? ==>
              var (db', b) := r.value;
              && b.status == Waiting && b.booker == userId && b.item == input.itemId
              && b.start == input.start && b.end == input.end
              && b.id == db.bookings.nextId && b.id in db'.bookings.rows && db'.bookings.rows[b.id] == b
              && db'.bookings.rows.Keys == db.bookings.rows.Keys + {b.id}
              && (forall k :: k in db.bookings.rows && k != b.id ==> db'.bookings.rows[k] == db.bookings.rows[k])
              && OnlyBookingsChanged(db, db')
  {
    var _ :- OrElse(db.users.Get(userId), UserNotFound);
    var item :- OrElse(db.items.Get(input.itemId), ItemNotFound);
    :- Need(item.available, Condition);
    var b := Booking(db.bookings.nextId, input.start, input.end, input.itemId, userId, Waiting);
    Ok((db.(bookings := db.bookings.Insert(b)), b))
  }

  function ApproveBooking(db: Db, userId: int, bookingId: int, approved: bool): (r: Result<(Db, Booking)>)
    ensures userId !in db.users.rows ==> r == Fail(Forbidden)
    ensures userId in db.users.rows && bookingId !in db.bookings.rows ==> r == Fail(BookingNotFound)
    ensures userId in db.users.rows && bookingId in db.bookings.rows
            && db.bookings.rows[bookingId].item in db.items.rows
            && db.items.rows[db.bookings.rows[bookingId].item].owner != userId
            ==> r == Fail(Forbidden)
    ensures r.Ok? <==>
              && userId in db.users.rows && bookingId in db.bookings.rows
              && db.bookings.rows[bookingId].item in db.items.rows
              && db.items.rows[db.bookings.rows[bookingId].item].owner == userId
    ensures r.Ok? ==>
              var (db', b) := r.value;
              var before := db.bookings.rows[bookingId];
              && b.status == (if approved then Approved else Rejected)
              && b.(status := before.status) == before
              && db'.bookings.rows == db.bookings.rows[bookingId := b]
              && db'.bookings.nextId == db.bookings.nextId
              && OnlyBookingsChanged(db, db')
  {
    var _ :- OrElse(db.users.Get(userId), Forbidden);
    var booking :- OrElse(db.bookings.Get(bookingId), BookingNotFound);
    var item :- OrElse(db.items.Get(booking.item), NullDereference);
    :- Need(userId == item.owner, Forbidden);
    var b := booking.(status := if approved then Approved else Rejected);
    Ok((db.(bookings := db.bookings.Put(bookingId, b)), b))
  }

  function GetBookingById(db: Db, userId: int, bookingId: int): (r: Result<Booking>)
    ensures userId !in db.users.rows ==> r == Fail(UserNotFound)
    ensures userId in db.users.rows && bookingId !in db.bookings.rows ==> r == Fail(BookingNotFound)
    ensures r.Ok? <==>
              && userId in db.users.rows && bookingId in db.bookings.rows
              && db.bookings.rows[bookingId].item in db.items.rows
              && (userId == db.bookings.rows[bookingId].booker
                  || userId == db.items.rows[db.bookings.rows[bookingId].item].owner)
    ensures r.Ok? ==> r.value == db.bookings.rows[bookingId]
    ensures (&& userId in db.users.rows && bookingId in db.bookings.rows
             && db.bookings.rows[bookingId].item in db.items.rows && !r.Ok?)
            ==> r == Fail(Condition)
  {
    var _ :- OrElse(db.users.Get(userId), UserNotFound);
    var booking :- OrElse(db.bookings.Get(bookingId), BookingNotFound);
    var item :- OrElse(db.items.Get(booking.item), ItemNotFound);
    :- Need(userId == booking.booker || userId == item.owner, Condition);
    Ok(booking)
  }

  /** The finder each handled state dispatches to, for a booker. */
  function BookerFinder(rows: seq<Booking>, userId: int, state: BookingState, now: int): (r: seq<Booking>)
    requires !state.OtherState?
    ensures forall b :: multiset(r)[b] == if b.booker == userId && InState(b, state, now) then multiset(rows)[b] else 0
    ensures state != Current ==> SortedDesc(r, StartOf)
  {
    match state
    case All => BookerAllRows(rows, userId, now); FindAllByBookerId(rows, userId)
    case Current => BookerCurrentRows(rows, userId, now); FindAllBookingsCurrent(rows, userId, now)
    case Past => BookerPastRows(rows, userId, now); FindAllByBookerIdAndEndBefore(rows, userId, now)
    case Future => BookerFutureRows(rows, userId, now); FindAllByBookerIdAndStartAfter(rows, userId, now)
    case WaitingState => BookerWaitingRows(rows, userId, now); FindAllByBookerIdAndStatus(rows, userId, Waiting)
    case RejectedState => BookerRejectedRows(rows, userId, now); FindAllByBookerIdAndStatus(rows, userId, Rejected)
  }

  /** Each booker query keeps the rows of its state, each as often as it
      is stored. */
  lemma BookerAllRows(rows: seq<Booking>, userId: int, now: int)
    ensures forall b :: multiset(FindAllByBookerId(rows, userId))[b] == if b.booker == userId && InState(b, All, now) then multiset(rows)[b] else 0
  {}

  lemma BookerCurrentRows(rows: seq<Booking>, userId: int, now: int)
    ensures forall b :: multiset(FindAllBookingsCurrent(rows, userId, now))[b] == if b.booker == userId && InState(b, Current, now) then multiset(rows)[b] else 0
  {}

  lemma BookerPastRows(rows: seq<Booking>, userId: int, now: int)
    ensures forall b :: multiset(FindAllByBookerIdAndEndBefore(rows, userId, now))[b] == if b.booker == userId && InState(b, Past, now) then multiset(rows)[b] else 0
  {}

  lemma BookerFutureRows(rows: seq<Booking>, userId: int, now: int)
    ensures forall b :: multiset(FindAllByBookerIdAndStartAfter(rows, userId, now))[b] == if b.booker == userId && InState(b, Future, now) then multiset(rows)[b] else 0
  {}

  lemma BookerWaitingRows(rows: seq<Booking>, userId: int, now: int)
    ensures forall b :: multiset(FindAllByBookerIdAndStatus(rows, userId, Waiting))[b] == if b.booker == userId && InState(b, WaitingState, now) then multiset(rows)[b] else 0
  {}

  lemma BookerRejectedRows(rows: seq<Booking>, userId: int, now: int)
    ensures forall b :: multiset(FindAllByBookerIdAndStatus(rows, userId, Rejected))[b] == if b.booker == userId && InState(b, RejectedState, now) then multiset(rows)[b] else 0
  {}

  /** The bookings made by `userId` in the given state, each stored row
      listed once. */
  function GetAllBookingsByUser(db: Db, userId: int, state: BookingState, now: int): (r: Result<seq<Booking>>)
    ensures userId !in db.users.rows ==> r == Fail(UserNotFound)
    ensures userId in db.users.rows && state.OtherState? ==> r == Fail(Condition)
    ensures r.Ok? <==> userId in db.users.rows && !state.OtherState?
    ensures r.Ok? ==> forall b :: b in r.value <==>
              b in db.bookings.rows.Values && b.booker == userId && InState(b, state, now)
    ensures r.Ok? ==>
              forall b :: multiset(r.value)[b] ==
                            if b.booker == userId && InState(b, state, now) then Occurrences(db.bookings.rows, b) else 0
    ensures r.Ok? && state != Current ==> SortedDesc(r.value, StartOf)
  {
    var _ :- OrElse(db.users.Get(userId), UserNotFound);
    if state.OtherState? then Fail(Condition)
    else Ok(BookerFinder(FindAll(db.bookings), userId, state, now))
  }

  /** The ids of the items `userId` owns (`findAllByOwnerId` mapped to ids). */
  function OwnedItemIds(db: Db, userId: int): (ids: seq<int>)
    ensures forall id :: id in ids <==> OwnsItem(db, userId, id)
  {
    OwnedIdsAreOwned(db, userId);
    IdsOf(OwnedItems(db, userId))
  }

  /** The finder each handled state dispatches to, for a set of items. */
  function ItemsFinder(rows: seq<Booking>, ids: seq<int>, state: BookingState, now: int): (r: seq<Booking>)
    requires !state.OtherState?
    ensures forall b :: multiset(r)[b] == if b.item in ids && InState(b, state, now) then multiset(rows)[b] else 0
    ensures state != Current ==> SortedDesc(r, StartOf)
  {
    match state
    case All => ItemsAllRows(rows, ids, now); FindAllByItemIdIn(rows, ids)
    case Current => ItemsCurrentRows(rows, ids, now); FindAllBookingsCurrentByItemIdIn(rows, ids, now)
    case Past => ItemsPastRows(rows, ids, now); FindAllByItemIdInAndEndBefore(rows, ids, now)
    case Future => ItemsFutureRows(rows, ids, now); FindAllByItemIdInAndStartAfter(rows, ids, now)
    case WaitingState => ItemsWaitingRows(rows, ids, now); FindAllByItemIdInAndStatus(rows, ids, Waiting)
    case RejectedState => ItemsRejectedRows(rows, ids, now); FindAllByItemIdInAndStatus(rows, ids, Rejected)
  }

  /** Each item query keeps the rows of its state, each as often as it is
      stored. */
  lemma ItemsAllRows(rows: seq<Booking>, ids: seq<int>, now: int)
    ensures forall b :: multiset(FindAllByItemIdIn(rows, ids))[b] == if b.item in ids && InState(b, All, now) then multiset(rows)[b] else 0
  {}

  lemma ItemsCurrentRows(rows: seq<Booking>, ids: seq<int>, now: int)
    ensures forall b :: multiset(FindAllBookingsCurrentByItemIdIn(rows, ids, now))[b] == if b.item in ids && InState(b, Current, now) then multiset(rows)[b] else 0
  {}

  lemma ItemsPastRows(rows: seq<Booking>, ids: seq<int>, now: int)
    ensures forall b :: multiset(FindAllByItemIdInAndEndBefore(rows, ids, now))[b] == if b.item in ids && InState(b, Past, now) then multiset(rows)[b] else 0
  {}

  lemma ItemsFutureRows(rows: seq<Booking>, ids: seq<int>, now: int)
    ensures forall b :: multiset(FindAllByItemIdInAndStartAfter(rows, ids, now))[b] == if b.item in ids && InState(b, Future, now) then multiset(rows)[b] else 0
  {}

  lemma ItemsWaitingRows(rows: seq<Booking>, ids: seq<int>, now: int)
    ensures forall b :: multiset(FindAllByItemIdInAndStatus(rows, ids, Waiting))[b] == if b.item in ids && InState(b, WaitingState, now) then multiset(rows)[b] else 0
  {}

  lemma ItemsRejectedRows(rows: seq<Booking>, ids: seq<int>, now: int)
    ensures forall b :: multiset(FindAllByItemIdInAndStatus(rows, ids, Rejected))[b] == if b.item in ids && InState(b, RejectedState, now) then multiset(rows)[b] else 0
  {}

  /** The bookings of the items `userId` owns, in the given state. The
      CURRENT branch uses the item-id query; see
      `OwnerCurrentQueryAsWrittenMissesBooking` for the query the source
      calls there. */
  function GetAllBookingsByUserItems(db: Db, userId: int, state: BookingState, now: int): (r: Result<seq<Booking>>)
    ensures userId !in db.users.rows ==> r == Fail(UserNotFound)
    ensures userId in db.users.rows && (forall id :: !OwnsItem(db, userId, id)) ==> r == Fail(ItemNotFound)
    ensures userId in db.users.rows && (exists id :: OwnsItem(db, userId, id)) && state.OtherState?
            ==> r == Fail(Condition)
    ensures r.Ok? <==> userId in db.users.rows && (exists id :: OwnsItem(db, userId, id)) && !state.OtherState?
    ensures r.Ok? ==> forall b :: b in r.value <==>
              b in db.bookings.rows.Values && OwnsItem(db, userId, b.item) && InState(b, state, now)
    ensures r.Ok? ==>
              forall b :: multiset(r.value)[b] ==
                            if OwnsItem(db, userId, b.item) && InState(b, state, now) then Occurrences(db.bookings.rows, b) else 0
    ensures r.Ok? && state != Current ==> SortedDesc(r.value, StartOf)
  {
    var _ :- OrElse(db.users.Get(userId), UserNotFound);
    var ids := OwnedItemIds(db, userId);
    if |ids| == 0 then
      Fail(ItemNotFound)
    else
      assert OwnsItem(db, userId, ids[0]);
      if state.OtherState? then Fail(Condition)
      else
        OwnerListingRows(db, userId, ids, state, now);
        Ok(ItemsFinder(FindAll(db.bookings), ids, state, now))
  }

  /** The listing for a set of item ids, read back against the booking
      table when the ids are exactly those of the items `userId` owns. */
  lemma OwnerListingRows(db: Db, userId: int, ids: seq<int>, state: BookingState, now: int)
    requires !state.OtherState?
    requires forall id :: id in ids <==> OwnsItem(db, userId, id)
    ensures var r := ItemsFinder(FindAll(db.bookings), ids, state, now);
            && (forall b :: multiset(r)[b] ==
                               if OwnsItem(db, userId, b.item) && InState(b, state, now) then Occurrences(db.bookings.rows, b) else 0)
            && (forall b :: b in r <==> b in db.bookings.rows.Values && OwnsItem(db, userId, b.item) && InState(b, state, now))
  {
    var rows := FindAll(db.bookings);
    var r := ItemsFinder(rows, ids, state, now);
    forall b ensures b in r <==> b in db.bookings.rows.Values && OwnsItem(db, userId, b.item) && InState(b, state, now) {
      assert b in r <==> multiset(r)[b] > 0;
      assert b in rows <==> multiset(rows)[b] > 0;
    }
  }

  // ---- Properties relating several calls ----

  /** A booking just created is WAITING: the booker's WAITING listing
      returns it. */
  lemma CreatedBookingIsListedAsWaiting(db: Db, userId: int, input: BookingInput, now: int)
    requires CreateBooking(db, userId, input).Ok?
    ensures var (db', b) := CreateBooking(db, userId, input).value;
            && GetAllBookingsByUser(db', userId, WaitingState, now).Ok?
            && b in GetAllBookingsByUser(db', userId, WaitingState, now).value
  {
    var (db', b) := CreateBooking(db, userId, input).value;
    assert b in db'.bookings.rows.Values by {
      assert db'.bookings.rows[b.id] == b;
    }
  }

  /** A booking just created can be read back by its booker and by the
      item's owner, and by no other known user. */
  lemma CreatedBookingIsVisible(db: Db, userId: int, input: BookingInput, other: int)
    requires CreateBooking(db, userId, input).Ok?
    requires other in db.users.rows
    ensures var (db', b) := CreateBooking(db, userId, input).value;
            var owner := db.items.rows[input.itemId].owner;
            && GetBookingById(db', userId, b.id) == Ok(b)
            && (owner in db.users.rows ==> GetBookingById(db', owner, b.id) == Ok(b))
            && (other != userId && other != owner ==> GetBookingById(db', other, b.id) == Fail(Condition))
  {
  }

  /** Approval never looks at the current status: a second call by the
      owner succeeds and its flag alone decides the final status. */
  lemma ApprovalIsNotTerminal(db: Db, userId: int, bookingId: int, first: bool, second: bool)
    requires ApproveBooking(db, userId, bookingId, first).Ok?
    ensures var db1 := ApproveBooking(db, userId, bookingId, first).value.0;
            && ApproveBooking(db1, userId, bookingId, second).Ok?
            && ApproveBooking(db1, userId, bookingId, second).value.1.status
               == (if second then Approved else Rejected)
            && ApproveBooking(db1, userId, bookingId, second).value.1.(status := Waiting)
               == db.bookings.rows[bookingId].(status := Waiting)
  {
  }

  /** The CURRENT query the owner listing calls compares booker ids with
      the owner's item ids: a current booking of one of the owner's items,
      made by a user whose id is not among those item ids, is missed by
      that query although the owner listing returns it. */
  lemma OwnerCurrentQueryMisses(db: Db, userId: int, b: Booking, now: int)
    requires userId in db.users.rows
    requires b in db.bookings.rows.Values && b.start < now < b.end
    requires OwnsItem(db, userId, b.item) && !OwnsItem(db, userId, b.booker)
    ensures b !in FindAllBookingsCurrentByBookerIdIn(FindAll(db.bookings), OwnedItemIds(db, userId), now)
    ensures GetAllBookingsByUserItems(db, userId, Current, now).Ok?
    ensures b in GetAllBookingsByUserItems(db, userId, Current, now).value
  {
    OwnerListingHasBooking(db, userId, b, now);
    AsWrittenQueryMisses(db, userId, b, now);
  }

  /** The owner listing returns every current booking of the owner's items. */
  lemma OwnerListingHasBooking(db: Db, userId: int, b: Booking, now: int)
    requires userId in db.users.rows
    requires b in db.bookings.rows.Values && b.start < now < b.end
    requires OwnsItem(db, userId, b.item)
    ensures GetAllBookingsByUserItems(db, userId, Current, now).Ok?
    ensures b in GetAllBookingsByUserItems(db, userId, Current, now).value
  {
    assert exists id :: OwnsItem(db, userId, id);
    assert InState(b, Current, now);
  }

  /** The booker-id query over the owner's item ids misses a booking whose
      booker id is not one of those item ids. */
  lemma AsWrittenQueryMisses(db: Db, userId: int, b: Booking, now: int)
    requires b in db.bookings.rows.Values && b.start < now < b.end
    requires OwnsItem(db, userId, b.item) && !OwnsItem(db, userId, b.booker)
    ensures b !in FindAllBookingsCurrentByBookerIdIn(FindAll(db.bookings), OwnedItemIds(db, userId), now)
  {
    var ids := OwnedItemIds(db, userId);
    var rows := FindAll(db.bookings);
    assert b in rows;
    assert b.item in ids && b.booker !in ids;
    BookerIdQueryMisses(rows, ids, b, now);
  }

  /** A current booking of an item in `ids` whose booker id is not in `ids`
      is missed by the booker-id query. */
  lemma BookerIdQueryMisses(rows: seq<Booking>, ids: seq<int>, b: Booking, now: int)
    requires b in rows && b.item in ids && b.booker !in ids && b.start < now < b.end
    ensures b !in FindAllBookingsCurrentByBookerIdIn(rows, ids, now)
    ensures b in FindAllBookingsCurrentByItemIdIn(rows, ids, now)
  {
  }

  /** An instance: owner 1's item 7 is booked by user 2 for [0, 10); at
      time 5 the as-written query misses the booking which the item-id
      query returns. */
  lemma OwnerCurrentQueryAsWrittenMissesBooking()
    ensures var b := Booking(1, 0, 10, 7, 2, Waiting);
            var db := EmptyDb.(
              users := Table(map[1 := User(1, "owner", "o@x"), 2 := User(2, "guest", "g@x")], 3),
              items := Table(map[7 := Item(7, "drill", "a drill", true, 1, Unlinked)], 8),
              bookings := Table(map[1 := b], 2));
            && b !in FindAllBookingsCurrentByBookerIdIn(FindAll(db.bookings), OwnedItemIds(db, 1), 5)
            && GetAllBookingsByUserItems(db, 1, Current, 5).Ok?
            && b in GetAllBookingsByUserItems(db, 1, Current, 5).value
  {
    var b := Booking(1, 0, 10, 7, 2, Waiting);
    var db := EmptyDb.(
      users := Table(map[1 := User(1, "owner", "o@x"), 2 := User(2, "guest", "g@x")], 3),
      items := Table(map[7 := Item(7, "drill", "a drill", true, 1, Unlinked)], 8),
      bookings := Table(map[1 := b], 2));
    assert db.items.rows[7] in db.items.rows.Values;
    assert db.bookings.rows[1] in db.bookings.rows.Values;
    assert !OwnsItem(db, 1, 2);
    OwnerCurrentQueryMisses(db, 1, b, 5);
  }
}
