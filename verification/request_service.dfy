/** The item-request board: users post requests for items they need;
    listings show a user's own requests or everyone else's, newest first,
    each with the items created in answer to it. */
module RequestService {
  import opened Results
  import opened Entities
  import opened Tables
  import opened Database
  import opened Seqs
  import ItemService

  /** A request as returned to clients, with the items that answer it. */
  datatype RequestView = RequestView(request: ItemRequest, items: seq<Item>)

  /** `v` shows `q` with exactly the stored items linked to it, each stored
      row once. */
  ghost predicate ShowsRequest(db: Db, q: ItemRequest, v: RequestView)
  {
    && v.request == q
    && (forall i :: i in v.items <==> i in db.items.rows.Values && i.request == LinkedTo(q.id))
    && (forall i :: multiset(v.items)[i] == if i.request == LinkedTo(q.id) then Occurrences(db.items.rows, i) else 0)
  }

  function RequestsOf(views: seq<RequestView>): (r: seq<ItemRequest>)
    ensures |r| == |views|
    ensures forall k :: 0 <= k < |views| ==> r[k] == views[k].request
  {
    seq(|views|, k requires 0 <= k < |views| => views[k].request)
  }

  function WithResponse(db: Db, q: ItemRequest): (v: RequestView)
    ensures ShowsRequest(db, q, v)
  {
    RequestView(q, ItemService.GetItemsByRequestId(db, q.id))
  }

  function WithResponses(db: Db, qs: seq<ItemRequest>): (r: seq<RequestView>)
    ensures |r| == |qs|
    ensures forall k :: 0 <= k < |qs| ==> ShowsRequest(db, qs[k], r[k])
    ensures RequestsOf(r) == qs
  {
    seq(|qs|, k requires 0 <= k < |qs| => WithResponse(db, qs[k]))
  }

  /** A new request by `userId`, stamped with the creation time. */
  function CreateRequest(db: Db, userId: int, description: string, now: int): (r: Result<(Db, ItemRequest)>)
    ensures r.Ok? <==> userId in db.users.rows
    ensures r.Fail? ==> r.error == UserNotFound
    ensures r.Ok? ==>
              var (db', q) := r.value;
              && q == ItemRequest(db.requests.nextId, description, userId, now)
              && db'.requests.rows.Keys == db.requests.rows.Keys + {q.id}
              && db'.requests.rows[q.id] == q
              && (forall k :: k in db.requests.rows && k != q.id ==> db'.requests.rows[k] == db.requests.rows[k])
              && db'.users == db.users && db'.items == db.items
              && db'.bookings == db.bookings && db'.comments == db.comments
  {
    var _ :- OrElse(db.users.Get(userId), UserNotFound);
    var q := ItemRequest(db.requests.nextId, description, userId, now);
    Ok((db.(requests := db.requests.Insert(q)), q))
  }

  /** The stored requests satisfying `p`, each stored row once, newest first. */
  function NewestFirst(db: Db, p: ItemRequest -> bool): (r: seq<ItemRequest>)
    ensures forall q :: q in r <==> q in db.requests.rows.Values && p(q)
    ensures forall q :: multiset(r)[q] == if p(q) then Occurrences(db.requests.rows, q) else 0
    ensures SortedDesc(r, CreatedOf)
  {
    SortDesc(Filter(FindAll(db.requests), p), CreatedOf)
  }

  /** The caller's own requests, newest first, each with its answers. */
  function GetAllRequestsByUser(db: Db, userId: int): (r: Result<seq<RequestView>>)
    ensures r.Ok? <==> userId in db.users.rows
    ensures r.Fail? ==> r.error == UserNotFound
    ensures r.Ok? ==> forall q :: q in RequestsOf(r.value) <==> q in db.requests.rows.Values && q.requester == userId
    ensures r.Ok? ==> forall q :: multiset(RequestsOf(r.value))[q] == if q.requester == userId then Occurrences(db.requests.rows, q) else 0
    ensures r.Ok? ==> SortedDesc(RequestsOf(r.value), CreatedOf)
    ensures r.Ok? ==> forall k :: 0 <= k < |r.value| ==> ShowsRequest(db, r.value[k].request, r.value[k])
  {
    var _ :- OrElse(db.users.Get(userId), UserNotFound);
    Ok(WithResponses(db, NewestFirst(db, (q: ItemRequest) => q.requester == userId)))
  }

  /** Everyone else's requests, newest first, each with its answers. */
  function GetAllRequests(db: Db, userId: int): (r: Result<seq<RequestView>>)
    ensures r.Ok? <==> userId in db.users.rows
    ensures r.Fail? ==> r.error == UserNotFound
    ensures r.Ok? ==> forall q :: q in RequestsOf(r.value) <==> q in db.requests.rows.Values && q.requester != userId
    ensures r.Ok? ==> forall q :: multiset(RequestsOf(r.value))[q] == if q.requester != userId then Occurrences(db.requests.rows, q) else 0
    ensures r.Ok? ==> SortedDesc(RequestsOf(r.value), CreatedOf)
    ensures r.Ok? ==> forall k :: 0 <= k < |r.value| ==> ShowsRequest(db, r.value[k].request, r.value[k])
  {
    var _ :- OrElse(db.users.Get(userId), UserNotFound);
    Ok(WithResponses(db, NewestFirst(db, (q: ItemRequest) => q.requester != userId)))
  }

  /** One request with its answers; no acting user is needed. */
  function GetRequestById(db: Db, requestId: int): (r: Result<RequestView>)
    ensures r.Ok? <==> requestId in db.requests.rows
    ensures r.Fail? ==> r.error == ItemRequestNotFound
    ensures r.Ok? ==> ShowsRequest(db, db.requests.rows[requestId], r.value)
  {
    var q :- OrElse(db.requests.Get(requestId), ItemRequestNotFound);
    Ok(WithResponse(db, q))
  }

  // ---- Properties across operations ----

  /** The two listings split the board: every stored request is in exactly
      one of them. */
  lemma ListingsPartitionBoard(db: Db, userId: int, q: ItemRequest)
    requires userId in db.users.rows
    requires q in db.requests.rows.Values
    ensures q in RequestsOf(GetAllRequestsByUser(db, userId).value) <==> q !in RequestsOf(GetAllRequests(db, userId).value)
  {
  }

  /** A request just created is the caller's, and is listed for them. */
  lemma CreatedRequestIsListed(db: Db, userId: int, description: string, now: int)
    requires CreateRequest(db, userId, description, now).Ok?
    ensures var (db', q) := CreateRequest(db, userId, description, now).value;
            && q in RequestsOf(GetAllRequestsByUser(db', userId).value)
            && q !in RequestsOf(GetAllRequests(db', userId).value)
  {
    var (db', q) := CreateRequest(db, userId, description, now).value;
    assert q in db'.requests.rows.Values by {
      assert db'.requests.rows[q.id] == q;
    }
  }

  /** An item created in answer to a request shows up on that request. */
  lemma AnsweringItemIsShown(db: Db, userId: int, dto: ItemService.ItemSave, rid: int)
    requires RequestsKeyed(db)
    requires dto.requestId == Some(rid)
    requires ItemService.CreateItem(db, userId, dto).Ok?
    ensures var (db', item) := ItemService.CreateItem(db, userId, dto).value;
            && GetRequestById(db', rid).Ok?
            && item in GetRequestById(db', rid).value.items
  {
    var (db', item) := ItemService.CreateItem(db, userId, dto).value;
    ItemService.CreatedItemAnswersRequest(db, userId, dto, rid);
  }
}
