/** The booking finders of the repository, over the rows of the booking
    table. Derived `OrderBy...Desc` finders sort by start, latest first;
    the two hand-written `findAllBookingsCurrent` queries have no ORDER BY
    and keep table order. */
module BookingRepository {
  import opened Entities
  import opened Results
  import opened Seqs

  /** The rows satisfying `p`, each as often as among `rows`, latest start
      first. */
  function OrderedByStartDesc(rows: seq<Booking>, p: Booking -> bool): (r: seq<Booking>)
    ensures forall b :: b in r <==> b in rows && p(b)
    ensures forall b :: multiset(r)[b] == if p(b) then multiset(rows)[b] else 0
    ensures SortedDesc(r, StartOf)
  {
    SortDesc(Filter(rows, p), StartOf)
  }

  // ---- Finders keyed by the booker ----

  function FindAllByBookerId(rows: seq<Booking>, bookerId: int): (r: seq<Booking>)
    ensures forall b :: b in r <==> b in rows && b.booker == bookerId
    ensures forall b :: multiset(r)[b] == if b.booker == bookerId then multiset(rows)[b] else 0
    ensures SortedDesc(r, StartOf)
  {
    OrderedByStartDesc(rows, (b: Booking) => b.booker == bookerId)
  }

  /** The booker's bookings under way at `now`: both bounds strict, no order. */
  function FindAllBookingsCurrent(rows: seq<Booking>, bookerId: int, now: int): (r: seq<Booking>)
    ensures forall b :: b in r <==> b in rows && b.booker == bookerId && b.start < now && now < b.end
    ensures forall b :: multiset(r)[b] == if b.booker == bookerId && b.start < now && now < b.end then multiset(rows)[b] else 0
  {
    Filter(rows, (b: Booking) => b.booker == bookerId && now > b.start && now < b.end)
  }

  function FindAllByBookerIdAndEndBefore(rows: seq<Booking>, bookerId: int, now: int): (r: seq<Booking>)
    ensures forall b :: b in r <==> b in rows && b.booker == bookerId && b.end < now
    ensures forall b :: multiset(r)[b] == if b.booker == bookerId && b.end < now then multiset(rows)[b] else 0
    ensures SortedDesc(r, StartOf)
  {
    OrderedByStartDesc(rows, (b: Booking) => b.booker == bookerId && b.end < now)
  }

  function FindAllByBookerIdAndStartAfter(rows: seq<Booking>, bookerId: int, now: int): (r: seq<Booking>)
    ensures forall b :: b in r <==> b in rows && b.booker == bookerId && b.start > now
    ensures forall b :: multiset(r)[b] == if b.booker == bookerId && b.start > now then multiset(rows)[b] else 0
    ensures SortedDesc(r, StartOf)
  {
    OrderedByStartDesc(rows, (b: Booking) => b.booker == bookerId && b.start > now)
  }

  function FindAllByBookerIdAndStatus(rows: seq<Booking>, bookerId: int, status: BookingStatus): (r: seq<Booking>)
    ensures forall b :: b in r <==> b in rows && b.booker == bookerId && b.status == status
    ensures forall b :: multiset(r)[b] == if b.booker == bookerId && b.status == status then multiset(rows)[b] else 0
    ensures SortedDesc(r, StartOf)
  {
    OrderedByStartDesc(rows, (b: Booking) => b.booker == bookerId && b.status == status)
  }

  // ---- Finders keyed by a collection of item ids ----

  function FindAllByItemIdIn(rows: seq<Booking>, ids: seq<int>): (r: seq<Booking>)
    ensures forall b :: b in r <==> b in rows && b.item in ids
    ensures forall b :: multiset(r)[b] == if b.item in ids then multiset(rows)[b] else 0
    ensures SortedDesc(r, StartOf)
  {
    OrderedByStartDesc(rows, (b: Booking) => b.item in ids)
  }

  /** The collection variant of `findAllBookingsCurrent` as the query is
      written: it compares the BOOKER id with the supplied ids. */
  function FindAllBookingsCurrentByBookerIdIn(rows: seq<Booking>, ids: seq<int>, now: int): (r: seq<Booking>)
    ensures forall b :: b in r <==> b in rows && b.booker in ids && b.start < now && now < b.end
    ensures forall b :: multiset(r)[b] == if b.booker in ids && b.start < now && now < b.end then multiset(rows)[b] else 0
  {
    Filter(rows, (b: Booking) => b.booker in ids && now > b.start && now < b.end)
  }

  /** The collection variant of `findAllBookingsCurrent` as its caller,
      the owner listing, needs it: the supplied ids are item ids. */
  function FindAllBookingsCurrentByItemIdIn(rows: seq<Booking>, ids: seq<int>, now: int): (r: seq<Booking>)
    ensures forall b :: b in r <==> b in rows && b.item in ids && b.start < now && now < b.end
    ensures forall b :: multiset(r)[b] == if b.item in ids && b.start < now && now < b.end then multiset(rows)[b] else 0
  {
    Filter(rows, (b: Booking) => b.item in ids && now > b.start && now < b.end)
  }

  function FindAllByItemIdInAndEndBefore(rows: seq<Booking>, ids: seq<int>, now: int): (r: seq<Booking>)
    ensures forall b :: b in r <==> b in rows && b.item in ids && b.end < now
    ensures forall b :: multiset(r)[b] == if b.item in ids && b.end < now then multiset(rows)[b] else 0
    ensures SortedDesc(r, StartOf)
  {
    OrderedByStartDesc(rows, (b: Booking) => b.item in ids && b.end < now)
  }

  function FindAllByItemIdInAndStartAfter(rows: seq<Booking>, ids: seq<int>, now: int): (r: seq<Booking>)
    ensures forall b :: b in r <==> b in rows && b.item in ids && b.start > now
    ensures forall b :: multiset(r)[b] == if b.item in ids && b.start > now then multiset(rows)[b] else 0
    ensures SortedDesc(r, StartOf)
  {
    OrderedByStartDesc(rows, (b: Booking) => b.item in ids && b.start > now)
  }

  function FindAllByItemIdInAndStatus(rows: seq<Booking>, ids: seq<int>, status: BookingStatus): (r: seq<Booking>)
    ensures forall b :: b in r <==> b in rows && b.item in ids && b.status == status
    ensures forall b :: multiset(r)[b] == if b.item in ids && b.status == status then multiset(rows)[b] else 0
    ensures SortedDesc(r, StartOf)
  {
    OrderedByStartDesc(rows, (b: Booking) => b.item in ids && b.status == status)
  }

  // ---- Finders for one item ----

  /** The booker's latest-starting booking of the item that has ended
      before `now`; None when there is none. */
  function FindByBookerIdAndItemIdAndEndBefore(rows: seq<Booking>, bookerId: int, itemId: int, now: int): (r: Option<Booking>)
    ensures r.None? <==> forall b :: b in rows ==> !(b.booker == bookerId && b.item == itemId && b.end < now)
    ensures r.Some? ==> r.value in rows && r.value.booker == bookerId && r.value.item == itemId && r.value.end < now
  {
    var found := OrderedByStartDesc(rows, (b: Booking) => b.booker == bookerId && b.item == itemId && b.end < now);
    if |found| == 0 then None
    else
      assert found[0] in found;
      Some(found[0])
  }

  /** The item's bookings that start after `now`, earliest first. */
  function FindAllByItemIdAndStartAfterAsc(rows: seq<Booking>, itemId: int, now: int): (r: seq<Booking>)
    ensures forall b :: b in r <==> b in rows && b.item == itemId && b.start > now
    ensures forall b :: multiset(r)[b] == if b.item == itemId && b.start > now then multiset(rows)[b] else 0
    ensures SortedAsc(r, StartOf)
  {
    var desc := OrderedByStartDesc(rows, (b: Booking) => b.item == itemId && b.start > now);
    ReverseOfDescIsAsc(desc, StartOf);
    Reverse(desc)
  }

  /** A booking that starts exactly at `now` is neither under way nor in
      the future: both comparisons are strict. */
  lemma StartAtNowIsNeitherCurrentNorFuture(rows: seq<Booking>, bookerId: int, b: Booking, now: int)
    requires b in rows && b.booker == bookerId && b.start == now
    ensures b !in FindAllBookingsCurrent(rows, bookerId, now)
    ensures b !in FindAllByBookerIdAndStartAfter(rows, bookerId, now)
  {
  }
}
