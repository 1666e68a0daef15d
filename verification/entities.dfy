/** The records of the ShareIt domain. References between records are
    held as ids; timestamps are integers. */
module Entities {
  import opened Results

  datatype User = User(id: int, name: string, email: string)

  /** A partial update of a user: `None` leaves the field as it is. */
  datatype UserPatch = UserPatch(name: Option<string>, email: Option<string>)

  /** Some user stored in `users` has address `email`. */
  predicate EmailTaken(users: map<int, User>, email: string)
  {
    exists k | k in users :: users[k].email == email
  }

  /** What an item says about the request it answers: no request, the
      blank `new ItemRequest()` the in-memory storage substitutes, or the
      id of a stored request. */
  datatype RequestLink = Unlinked | BlankRequest | LinkedTo(requestId: int)

  datatype Item = Item(
    id: int,
    name: string,
    description: string,
    available: bool,
    owner: int,
    request: RequestLink)

  datatype BookingStatus = Waiting | Approved | Rejected

  datatype Booking = Booking(
    id: int,
    start: int,
    end: int,
    item: int,
    booker: int,
    status: BookingStatus)

  datatype ItemRequest = ItemRequest(id: int, description: string, requester: int, created: int)

  datatype Comment = Comment(id: int, text: string, item: int, author: int, authorName: string)

  function StartOf(b: Booking): int
  {
    b.start
  }

  function CreatedOf(r: ItemRequest): int
  {
    r.created
  }
}
