# ShareIt business rules in Dafny

This project models the business-rule layer of ShareIt. ShareIt is a
peer-to-peer item-sharing backend: users list items, other users book
them, owners approve or reject the bookings, past bookers comment, and
users post requests for items they need. The model is functional:

- Every repository is a table of immutable records. A table is a map from
  id to record plus an id counter (`Tables.Table`). The server's tables
  start their identity column at 1; the in-memory stores start at 0.
- Every service call is a pure function. It returns `Ok(value)` or
  `Fail(error)`, where the error is the kind of exception the source
  throws (`Results.Err`). A write returns the new database with its
  result. A failed write returns no database, so nothing was stored.
- A Java null dereference that the source does not guard against becomes
  the error `NullDereference`, not a precondition.
- `LocalDateTime.now()` is an integer parameter `now`. Timestamps are
  integers.
- A listing reads its table in ascending key order (`Seqs.Rows`), filters
  it, and sorts it by the ordering the query names (`Seqs.SortDesc`, an
  insertion sort). An ascending order is the reverse of the
  descending one.

The modules follow the source's structure:

- `BookingRepository`: the finders of the booking repository, with the
  rows they select and the order they promise.
- `BookingService`: creation, owner approval, the guarded lookup, and the
  state-filtered listings for a booker and for an owner.
- `ItemService`:
  - item creation with an optional request link, and the owner-checked
    partial update;
  - the single-item view and the owner's listing, with booking dates and
    comments;
  - search, comments by past bookers, and the items that answer a request.
- `UserService`: the JPA-backed user directory.
- `InMemoryUserStorage`: the map-and-counter user store. Its invariant is
  that stored addresses are pairwise distinct.
- `InMemoryItemStorage`: the map-and-counter item store of the pre-split
  application. Availability arrives as text, and search matches whole
  fields.
- `RequestService`: the item-request board.

## Model

| member | source | states |
|---|---|---|
| BookingService.CreateBooking | server/src/main/java/ru/practicum/shareit/booking/service/BookingServiceImpl.java:34-43 | Unknown user gives UserNotFound, then unknown item gives ItemNotFound, then an unavailable item gives Condition. Success exactly when all three checks pass. On success a WAITING booking for the caller and that item is stored under a fresh id; nothing else changes. |
| BookingService.ApproveBooking | server/src/main/java/ru/practicum/shareit/booking/service/BookingServiceImpl.java:50-60 | Unknown acting user gives Forbidden, checked before the booking lookup. Then a missing booking gives BookingNotFound, and a non-owner gives Forbidden. The owner sets APPROVED or REJECTED from the flag. Every other field of the booking and every other row stay the same. |
| BookingService.ApprovalIsNotTerminal | server/src/main/java/ru/practicum/shareit/booking/service/BookingServiceImpl.java:55-58 | After a successful approval, a second approval by the owner also succeeds. Its flag alone decides the final status; the current status is never checked. |
| BookingService.GetBookingById | server/src/main/java/ru/practicum/shareit/booking/service/BookingServiceImpl.java:67-77 | UserNotFound, then BookingNotFound. Success exactly when the caller is the booker or the item's owner, and the result is the stored booking. Anyone else gets Condition. |
| BookingService.CreatedBookingIsVisible | server/src/main/java/ru/practicum/shareit/booking/service/BookingServiceImpl.java:67-77 | A booking just created is read back by its booker, and by the item's owner when the owner is a known user. Any other known user gets Condition. |
| BookingService.BookerFinder | server/src/main/java/ru/practicum/shareit/booking/service/BookingServiceImpl.java:85-107 | Each handled state keeps every input row that is the caller's booking and satisfies the independent predicate `InState`, as often as it occurs in the input, and nothing else. All states but CURRENT are ordered by start, latest first. |
| BookingService.GetAllBookingsByUser | server/src/main/java/ru/practicum/shareit/booking/service/BookingServiceImpl.java:81-112 | UserNotFound for an unknown user; Condition for an unhandled state. Otherwise the result lists each stored booking of the caller in that state once per stored row, and nothing else. It is ordered by start descending, except CURRENT. |
| BookingService.OwnedItemIds | server/src/main/java/ru/practicum/shareit/booking/service/BookingServiceImpl.java:118-119 | An id is listed exactly when the user owns a stored item with that id. |
| BookingService.ItemsFinder | server/src/main/java/ru/practicum/shareit/booking/service/BookingServiceImpl.java:124-147 | Each handled state keeps every input row of the given items that satisfies `InState`, as often as it occurs in the input, and nothing else; ordered except for CURRENT. |
| BookingService.GetAllBookingsByUserItems | server/src/main/java/ru/practicum/shareit/booking/service/BookingServiceImpl.java:115-152 | UserNotFound. Then ItemNotFound when the user owns no item, checked before the state. Then Condition for an unhandled state. Otherwise the result lists each stored booking of the user's items in that state once per stored row, and nothing else. CURRENT uses the corrected query (see Findings). |
| BookingService.CreatedBookingIsListedAsWaiting | server/src/test/java/ru/practicum/shareit/booking/BookingServiceImplTest.java:274-287 | A booking just created is returned by its booker's WAITING listing. |
| BookingService.OwnerCurrentQueryAsWrittenMissesBooking | src/main/java/ru/practicum/shareit/booking/BookingRepository.java:29-33 | A concrete database meets the conditions of OwnerCurrentQueryMisses: the CURRENT query as written misses a current booking of the owner's item, while the owner listing returns it. |
| BookingService.OwnerCurrentQueryMisses | src/main/java/ru/practicum/shareit/booking/BookingRepository.java:29-33 | For any database: a current booking of the owner's item, made by a user whose id is not one of the owner's item ids, is missed by the CURRENT query as written but returned by the owner listing. |
| BookingRepository.FindAllByBookerId | src/main/java/ru/practicum/shareit/booking/BookingRepository.java:13 | The booker's bookings, each as often as in the input, and nothing else; ordered by start descending. |
| BookingRepository.FindAllBookingsCurrent | src/main/java/ru/practicum/shareit/booking/BookingRepository.java:15-19 | The booker's bookings with start < now < end, both strict, each as often as in the input, and nothing else. No order is promised. |
| BookingRepository.FindAllByBookerIdAndEndBefore | src/main/java/ru/practicum/shareit/booking/BookingRepository.java:21 | The booker's bookings with end < now, each as often as in the input, and nothing else; ordered by start descending. |
| BookingRepository.FindAllByBookerIdAndStartAfter | src/main/java/ru/practicum/shareit/booking/BookingRepository.java:23 | The booker's bookings with start > now, each as often as in the input, and nothing else; ordered by start descending. |
| BookingRepository.FindAllByBookerIdAndStatus | src/main/java/ru/practicum/shareit/booking/BookingRepository.java:25 | The booker's bookings with that status, each as often as in the input, and nothing else; ordered by start descending. |
| BookingRepository.FindAllByItemIdIn | src/main/java/ru/practicum/shareit/booking/BookingRepository.java:27 | The bookings of the given items, each as often as in the input, and nothing else; ordered by start descending. |
| BookingRepository.FindAllBookingsCurrentByBookerIdIn | src/main/java/ru/practicum/shareit/booking/BookingRepository.java:29-33 | As written: the current bookings whose BOOKER id is among the given ids, each as often as in the input, and nothing else. |
| BookingRepository.FindAllBookingsCurrentByItemIdIn | src/main/java/ru/practicum/shareit/booking/BookingRepository.java:29-33 | Corrected: the current bookings whose ITEM id is among the given ids, each as often as in the input, and nothing else. |
| BookingRepository.FindAllByItemIdInAndEndBefore | src/main/java/ru/practicum/shareit/booking/BookingRepository.java:35-36 | The ended bookings of the given items, each as often as in the input, and nothing else; ordered by start descending. |
| BookingRepository.FindAllByItemIdInAndStartAfter | src/main/java/ru/practicum/shareit/booking/BookingRepository.java:38-39 | The future bookings of the given items, each as often as in the input, and nothing else; ordered by start descending. |
| BookingRepository.FindAllByItemIdInAndStatus | src/main/java/ru/practicum/shareit/booking/BookingRepository.java:41 | The bookings of the given items with that status, each as often as in the input, and nothing else; ordered by start descending. |
| BookingRepository.FindByBookerIdAndItemIdAndEndBefore | src/main/java/ru/practicum/shareit/booking/BookingRepository.java:43 | Nothing exactly when the user has no ended booking of the item. Otherwise, one such booking. |
| BookingRepository.FindAllByItemIdAndStartAfterAsc | src/main/java/ru/practicum/shareit/booking/BookingRepository.java:45 | The item's future bookings, each as often as in the input, and nothing else; ordered by start ascending. |
| BookingRepository.StartAtNowIsNeitherCurrentNorFuture | src/main/java/ru/practicum/shareit/booking/BookingRepository.java:15-23 | A booking that starts exactly at `now` is in neither the CURRENT nor the FUTURE listing. |
| ItemService.CreateItem | server/src/main/java/ru/practicum/shareit/item/service/ItemServiceImpl.java:44-58 | UserNotFound, then ItemRequestNotFound for a present but unknown request id. On success the caller owns the item, which carries the submitted fields. It is linked to the request when one is given and unlinked otherwise, and is stored under a fresh id. |
| ItemService.UpdateItem | server/src/main/java/ru/practicum/shareit/item/service/ItemServiceImpl.java:62-82 | UserNotFound, then ItemNotFound; a non-owner gets UserNotFound. Each of name, description and availability is overwritten only when present. Id, owner and request link are kept, and only that row changes. |
| ItemService.UpdatedItemIsShown | server/src/main/java/ru/practicum/shareit/item/service/ItemServiceImpl.java:62-105 | After an accepted update, the item's own view shows exactly the updated item. |
| ItemService.EmptyPatchChangesNothing | server/src/main/java/ru/practicum/shareit/item/service/ItemServiceImpl.java:67-81 | A patch with no field present, accepted, leaves the whole database unchanged when the stored item carries its own key as id. |
| ItemService.MergeNext | server/src/main/java/ru/practicum/shareit/item/service/ItemServiceImpl.java:125-131 | Fails with NullDereference exactly when the date is null and a matching future booking exists. Otherwise the date is lowered to the earliest matching start: never later than the seed or any start, and equal to one of them. |
| ItemService.MergeLast | server/src/main/java/ru/practicum/shareit/item/service/ItemServiceImpl.java:133-139 | Fails exactly when the date is null and a matching past booking exists. Otherwise the date is raised to the latest matching start. |
| ItemService.CommentsOf | server/src/main/java/ru/practicum/shareit/item/service/ItemServiceImpl.java:142-143 | The comments of the item, each as often as in the input, and nothing else. |
| ItemService.CommentsOfAppend | server/src/main/java/ru/practicum/shareit/item/service/ItemServiceImpl.java:142-143 | Taking the comments of a concatenation takes those of each part and keeps them in order. A single comment contributes itself exactly when it is on the item, so the input order is kept. |
| ItemService.MergeComments | server/src/main/java/ru/practicum/shareit/item/service/ItemServiceImpl.java:141-150 | The item's list gets exactly its matching comments appended, in order. A missing list stays missing only when nothing matches. |
| ItemService.CommentsOfIn | server/src/main/java/ru/practicum/shareit/item/service/ItemServiceImpl.java:121-143 | Loading the comments of all listed items first does not change the comments any one of them receives. |
| ItemService.MergeView | server/src/main/java/ru/practicum/shareit/item/service/ItemServiceImpl.java:124-150 | One item's merge fails exactly when it meets a null date. Otherwise both dates and the comments are merged as above. |
| ItemService.MergeAll | server/src/main/java/ru/practicum/shareit/item/service/ItemServiceImpl.java:124-151 | The loop fails exactly when some item meets a null date. Otherwise every view is merged, position by position. |
| ItemService.GetAllItems | server/src/main/java/ru/practicum/shareit/item/service/ItemServiceImpl.java:108-153 | UserNotFound for an unknown user. It fails with NullDereference exactly when an owned item's seed date is null and the item has a matching future or past booking. Otherwise it returns one view per owned item. The next booking is lowered to the earliest future start and the last booking raised to the latest past start. The comments are exactly the item's comments appended to the seed list. |
| ItemService.GetItemById | server/src/main/java/ru/practicum/shareit/item/service/ItemServiceImpl.java:85-105 | As written: ItemNotFound exactly when the item is missing. Otherwise nextBooking is the least future start and lastBooking the greatest future start, both empty when there are none. The comments list each stored comment of the item once per stored row, and nothing else. |
| ItemService.LastBookingAsWrittenIgnoresPast | server/src/main/java/ru/practicum/shareit/item/service/ItemServiceImpl.java:95-98 | A concrete item with one ended booking and no future one: its lastBooking comes out empty. |
| ItemService.GetItemByIdCorrected | server/src/main/java/ru/practicum/shareit/item/service/ItemServiceImpl.java:85-105 | As GetItemById, comments included, but lastBooking is the greatest start among the item's ended bookings (see Findings). |
| ItemService.LatestPastStart | server/src/main/java/ru/practicum/shareit/item/service/ItemServiceImpl.java:133-139 | The greatest start among the item's ended bookings, or nothing when there are none. |
| ItemService.SearchItems | server/src/main/java/ru/practicum/shareit/item/service/ItemServiceImpl.java:156-162 | Empty or all-whitespace text finds nothing, whatever the catalog holds. Otherwise it lists each stored available item whose name or description contains the text, ignoring case, once per stored row, and nothing else. |
| ItemService.CreatedItemIsFound | server/src/main/java/ru/practicum/shareit/item/service/ItemServiceImpl.java:44-58 | An item just created whose name contains a non-blank text is found by that text exactly when it was created available. |
| ItemService.AddComment | server/src/main/java/ru/practicum/shareit/item/service/ItemServiceImpl.java:165-178 | UserNotFound, then ItemNotFound, then Condition unless the caller has a booking of the item that ended before `now`. On success a comment carrying the caller's current name is stored under a fresh id. |
| ItemService.NonBookerCannotComment | server/src/main/java/ru/practicum/shareit/item/service/ItemServiceImpl.java:170-174 | A user who has no booking at all cannot comment. |
| ItemService.AddedCommentIsShown | server/src/main/java/ru/practicum/shareit/item/service/ItemServiceImpl.java:175-177 | A known user with an ended booking of a known item gets the comment accepted, and it appears in the item's own view. |
| ItemService.GetItemsByRequestId | server/src/main/java/ru/practicum/shareit/item/service/ItemServiceImpl.java:181-186 | Each stored item linked to the request once per stored row, and nothing else. |
| ItemService.CreatedItemAnswersRequest | server/src/test/java/ru/practicum/shareit/item/ItemServiceImplTest.java:256-272 | An item created with request id r is returned for r. |
| ItemService.UnlinkedItemAnswersNoRequest | server/src/main/java/ru/practicum/shareit/item/service/ItemServiceImpl.java:50-55 | An item created without a request id is returned for no request. |
| UserService.GetAllUsers | server/src/main/java/ru/practicum/shareit/user/service/UserServiceImpl.java:21-23 | As many entries as stored users, each user as often as it is stored, and nothing else. |
| UserService.GetUserById | server/src/main/java/ru/practicum/shareit/user/service/UserServiceImpl.java:26-29 | The stored user, or UserNotFound exactly when the id is missing. |
| UserService.CreateUser | server/src/main/java/ru/practicum/shareit/user/service/UserServiceImpl.java:32-34 | Always stores a new user under a fresh id; nothing else changes. |
| UserService.CreatedUserIsListed | server/src/main/java/ru/practicum/shareit/user/service/UserServiceImpl.java:21-34 | After a create, the listing is the old listing plus the new user, once. |
| UserService.CreateAcceptsTakenEmail | server/src/main/java/ru/practicum/shareit/user/service/UserServiceImpl.java:32-34 | The service makes no uniqueness check on creation: an address already on file ends up held by two users. |
| UserService.UpdateUser | server/src/main/java/ru/practicum/shareit/user/service/UserServiceImpl.java:37-59 | UserNotFound for a missing id. A present address equal to one's own, or held by any user, gives DuplicateData. Success exactly when the id exists and no user holds a present address. A present name and a present address are applied; everything else is kept. |
| UserService.UpdateKeepsEmailsDistinct | server/src/main/java/ru/practicum/shareit/user/service/UserServiceImpl.java:44-51 | If the stored addresses are pairwise distinct, they stay so after a successful update. |
| UserService.OwnEmailIsTaken | server/src/main/java/ru/practicum/shareit/user/service/UserServiceImpl.java:44-56 | A user's own address always counts as taken, so resubmitting it is rejected like an address held by another user. |
| UserService.DeleteUser | server/src/main/java/ru/practicum/shareit/user/service/UserServiceImpl.java:62-64 | Removes exactly that key, and leaves the database as it is when the id is missing. |
| UserService.DeletedUserIsNotFound | server/src/test/java/ru/practicum/shareit/user/UserServiceImplTest.java:124-132 | After deleteUser(id), getUserById(id) gives UserNotFound. |
| InMemoryUserStorage.GetAllUsers | server/src/main/java/ru/practicum/shareit/user/storage/InMemoryUserStorage.java:24-26 | As many entries as stored users, each user as often as it is stored, and nothing else. |
| InMemoryUserStorage.GetUserById | server/src/main/java/ru/practicum/shareit/user/storage/InMemoryUserStorage.java:29-35 | The stored user, or UserNotFound exactly when the id is missing. |
| InMemoryUserStorage.CreateUser | server/src/main/java/ru/practicum/shareit/user/storage/InMemoryUserStorage.java:38-52 | The counter advances on every call, accepted or not. A taken address gives DuplicateData, reported before the format checks. Then a missing or blank address, or one without '@', gives Condition. Success exactly when the address is well formed and free; it adds one user under the old counter value. |
| InMemoryUserStorage.UpdateUser | server/src/main/java/ru/practicum/shareit/user/storage/InMemoryUserStorage.java:55-73 | UserNotFound for a missing id. A present address held by any user, the updated one included, gives DuplicateData. Otherwise the address, then the name, is applied where present, and only that row changes. |
| InMemoryUserStorage.DeleteUser | server/src/main/java/ru/practicum/shareit/user/storage/InMemoryUserStorage.java:76-81 | UserNotFound for a missing id. Otherwise exactly that key is removed. |
| InMemoryUserStorage.CreateKeepsInv | server/src/main/java/ru/practicum/shareit/user/storage/InMemoryUserStorage.java:38-52 | Every create keeps the invariant: keys below the counter, keys equal to ids, addresses pairwise distinct. An accepted create adds exactly one entry. |
| InMemoryUserStorage.AcceptedUserIsListed | server/src/main/java/ru/practicum/shareit/user/storage/InMemoryUserStorage.java:24-52 | An accepted user is found again under its id, and the listing grows by exactly that user, once. |
| InMemoryUserStorage.UpdateKeepsInv | server/src/main/java/ru/practicum/shareit/user/storage/InMemoryUserStorage.java:55-73 | An accepted update keeps the invariant. |
| InMemoryUserStorage.DeleteKeepsInv | server/src/main/java/ru/practicum/shareit/user/storage/InMemoryUserStorage.java:76-81 | A deletion keeps the invariant. |
| InMemoryUserStorage.OwnEmailIsRejected | server/src/main/java/ru/practicum/shareit/user/storage/InMemoryUserStorage.java:61-65 | Resubmitting one's own address gives DuplicateData. |
| InMemoryUserStorage.RenameChangesOnlyName | server/src/main/java/ru/practicum/shareit/user/storage/InMemoryUserStorage.java:61-71 | An update with only a name succeeds and changes only that user's name. |
| InMemoryItemStorage.FlagUpdate | src/main/java/ru/practicum/shareit/item/storage/InMemoryItemStorage.java:62-69 | Availability becomes true for the text "true" and false for "false". Any other text, or none, keeps it. |
| InMemoryItemStorage.CreateItem | src/main/java/ru/practicum/shareit/item/storage/InMemoryItemStorage.java:29-44 | A missing or empty name, or a missing description, gives Condition with the store untouched. Otherwise the counter advances, and a missing availability then gives Condition. On success the caller owns the item, a missing request becomes the blank request, and the item is stored under the old counter value. |
| InMemoryItemStorage.UpdateItem | src/main/java/ru/practicum/shareit/item/storage/InMemoryItemStorage.java:47-72 | A missing id is a null dereference. A non-owner gets UserNotFound. Otherwise a present name and description are applied, availability follows FlagUpdate, owner and request are kept, and only that row changes. |
| InMemoryItemStorage.GetItemById | src/main/java/ru/practicum/shareit/item/storage/InMemoryItemStorage.java:75-81 | The stored item, or ItemNotFound exactly when the id is missing. |
| InMemoryItemStorage.GetAllItems | src/main/java/ru/practicum/shareit/item/storage/InMemoryItemStorage.java:84-88 | The stored items owned by the user, each as often as it is stored, and nothing else. |
| InMemoryItemStorage.SearchItems | src/main/java/ru/practicum/shareit/item/storage/InMemoryItemStorage.java:91-101 | Blank text finds nothing. Otherwise it lists each stored available item whose whole name or whole description equals the text, ignoring case, once per stored row, and nothing else. |
| InMemoryItemStorage.CreateKeepsInv | src/main/java/ru/practicum/shareit/item/storage/InMemoryItemStorage.java:29-44 | Every create keeps the invariant: keys below the counter, keys equal to ids. An accepted item is found again under its id, and the store grows by one. |
| InMemoryItemStorage.AcceptedItemIsListed | src/main/java/ru/practicum/shareit/item/storage/InMemoryItemStorage.java:29-44 | An accepted item joins its owner's listing exactly once; nothing else in the listing changes. |
| InMemoryItemStorage.UpdateKeepsInv | src/main/java/ru/practicum/shareit/item/storage/InMemoryItemStorage.java:47-72 | An accepted update keeps the invariant. |
| InMemoryItemStorage.RejectedCreateSkipsId | src/main/java/ru/practicum/shareit/item/storage/InMemoryItemStorage.java:33-40 | A create rejected for a missing availability still consumes an id, so the next accepted item skips it. |
| InMemoryItemStorage.FoundItemsMatchWholeField | src/main/java/ru/practicum/shareit/item/storage/InMemoryItemStorage.java:97-98 | Every item found has a name or a description exactly as long as the text: matching is whole-field, not substring. |
| InMemoryItemStorage.NameIgnoringCaseIsFound | src/main/java/ru/practicum/shareit/item/storage/InMemoryItemStorage.java:95-99 | An available item whose name equals the text up to case is found. |
| RequestService.CreateRequest | server/src/main/java/ru/practicum/shareit/request/service/ItemRequestServiceImpl.java:24-28 | UserNotFound exactly when the caller is unknown. On success a request by the caller, stamped `now`, is stored under a fresh id. |
| RequestService.NewestFirst | server/src/main/java/ru/practicum/shareit/request/ItemRequestRepository.java:9-11 | The stored requests that satisfy the filter, each once per stored row, and nothing else; newest first. |
| RequestService.WithResponse | server/src/main/java/ru/practicum/shareit/request/dto/ItemRequestMapper.java:22-30 | The request with each stored item linked to it, once per stored row, and nothing else. |
| RequestService.GetAllRequestsByUser | server/src/main/java/ru/practicum/shareit/request/service/ItemRequestServiceImpl.java:31-38 | UserNotFound exactly when the caller is unknown. Otherwise the caller's requests, each once per stored row and nothing else, newest first, each with its answering items. |
| RequestService.GetAllRequests | server/src/main/java/ru/practicum/shareit/request/service/ItemRequestServiceImpl.java:41-48 | UserNotFound exactly when the caller is unknown. Otherwise the other users' requests, each once per stored row and nothing else, newest first, each with its answering items. |
| RequestService.GetRequestById | server/src/main/java/ru/practicum/shareit/request/service/ItemRequestServiceImpl.java:51-59 | ItemRequestNotFound exactly when the request is missing; no acting user is needed. The result carries the answering items. |
| RequestService.ListingsPartitionBoard | server/src/main/java/ru/practicum/shareit/request/service/ItemRequestServiceImpl.java:33-46 | Every stored request is in exactly one of the two listings. |
| RequestService.CreatedRequestIsListed | server/src/main/java/ru/practicum/shareit/request/service/ItemRequestServiceImpl.java:24-37 | A request just created is in its author's listing and not in the other listing. |
| RequestService.AnsweringItemIsShown | server/src/main/java/ru/practicum/shareit/request/dto/ItemRequestMapper.java:28 | An item created in answer to a request shows up on that request. |

## Left out

- Controllers, the gateway, its client and DTO validation: routing, header
  parsing and forwarding only.
- The exception handler that maps errors to HTTP statuses. Errors stop at
  `Results.Err`.
- Logging.
- Persistence machinery: transactions, identity generation beyond a
  counter, and concurrent last-write-wins behaviour. Ids are unbounded
  integers, so 32-bit wrap-around is not modelled.
- Bean-validation annotations on the entities and DTOs. These are
  framework behaviour, not service rules.
- The pre-split copies of the item service (the thin delegating one and
  the older service). The server item service is modelled once.
- The booking, item and comment mappers are not part of this model. The
  seed view of the owner's item listing is the parameter `seed` of
  `ItemService.GetAllItems`, standing for the one-argument mapper.
- The server booking repository is not part of this model. Its query
  semantics are taken from the pre-split repository.
- The server's item search query is not part of this model.
  `ItemService.SearchItems` assumes it returns the available items whose
  name or description contains the text, ignoring case.
- Case folding and whitespace: `Text.ToLower` folds ASCII only, and
  `Text.IsWhitespace` lists Java's whitespace characters.
- Null user names, null stored addresses and null item fields on the
  server side are not modelled. Strings are always present there.
- The creation timestamp of comments is not modelled.
- BookingService.GetAllBookingsByUserItems: CURRENT uses the corrected
  item-id query, not the query the source calls (see Findings).
- ItemService.AddComment: the finder returns a single booking. Spring's
  error when more than one booking matches is not modelled, so the call
  succeeds with one or more matching bookings.
- UserService.CreateUser, UserService.DeleteUser: constraints of the
  database schema are not modelled: no unique address, no foreign keys
  (deleting a user keeps their items, bookings and requests), and no
  one-item-per-request rule. The item's request link is mapped
  `@OneToOne` (server/src/main/java/ru/practicum/shareit/item/model/Item.java:34-36),
  but `getItemsByRequestId` returns a list, so the model lets several
  items answer one request.
- UserService.DeleteUser: deleting a missing id is a no-op, following
  Spring Data's `deleteById`. No error is modelled.
- InMemoryUserStorage.UpdateUser: a rejected update returns no store.
  The source resets the stored record's id to its key before the check.
  Under the store's invariant the two are equal, so that write is a no-op.
- InMemoryItemStorage.CreateItem: the conversion of the availability text
  by the mapper is the parameter `toFlag`.
- RequestService.AnsweringItemIsShown: assumes each stored request sits
  under its own id (`Database.RequestsKeyed`), as a loaded entity does.

## Findings

| source | as written | input that shows it | evidently intended | confidence | as-written member | corrected member |
|---|---|---|---|---|---|---|
| src/main/java/ru/practicum/shareit/booking/BookingRepository.java:29-33 | The CURRENT query for a collection matches `booker.id` against the ids. The owner listing passes it the owner's ITEM ids. | User 1 owns item 7. User 2 booked item 7 for [0, 10). At time 5 the query with ids [7] returns nothing. | Match `item.id` against the ids, as the other owner finders do. | medium, not executed | BookingRepository.FindAllBookingsCurrentByBookerIdIn, BookingService.OwnerCurrentQueryMisses, BookingService.OwnerCurrentQueryAsWrittenMissesBooking | BookingRepository.FindAllBookingsCurrentByItemIdIn, BookingService.GetAllBookingsByUserItems |
| server/src/main/java/ru/practicum/shareit/item/service/ItemServiceImpl.java:95-98 | lastBooking is the last element of the list of FUTURE bookings ordered by start. | Item 1 has one booking, [0, 10), and no future one. At time 20 lastBooking is empty. | The latest start among the item's ended bookings, as the owner's listing computes it. An unused repository finder for an item's ended bookings points the same way. | medium, not executed | ItemService.GetItemById, ItemService.LastBookingAsWrittenIgnoresPast | ItemService.GetItemByIdCorrected |
