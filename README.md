# ShareIt service layer in Dafny

ShareIt is an item-sharing backend. Users list items. Other users book them for a time window, and the item's owner approves or rejects each booking. A user who has finished a booking of an item may comment on it. Users can also post requests for items they cannot find. This project models the service layer of the two applications in the repository, the current `server` and the older `src` one:

- the booking engine, in both versions:
  - a new booking is WAITING;
  - only the item's owner decides it;
  - only its booker or owner may read it;
  - the booking lists are filtered by a case-insensitive state token and ordered by start date, latest first;
- the item service: creation, comments gated on a finished booking, the owner's view with last and next booking dates, search, partial update and delete;
- the user service in both versions: the server's version has no rule on e-mail addresses, and the src version keeps them unique;
- the item request service: creation, the caller's requests, all requests a page at a time (page index `from / size`), and one request with the items offered for it;
- the mappers between entities and transfer objects, and the id-based `equals`/`hashCode` of `ItemRequest`.

The database is the class `Store.Database`. It holds one `map` field per table, keyed by primary key, and one IDENTITY counter per table. `Snapshot()` returns its contents as the value `Store.Tables`, and `Store.Consistent` is the invariant every service method keeps: each row's id is its key, keys lie below the counter, and every item has an owner. Service operations that change the store are methods on a `Database` with `modifies` clauses. Each method's `ensures` states the whole new snapshot, the result, and the error and its ordering. Read-only operations are functions of `Tables`.

Conventions of the model:

- Errors are the values `NotFound(entity, id)`, `Validation(rule)` and `Internal`. `Internal` stands for any other runtime exception, such as a division by zero, a null dereference or an argument PageRequest rejects.
- A Java reference that the code can leave null is an `Option`.
- Instants are integers, and `LocalDateTime.now()` is the parameter `now`.

Where the server and src versions behave alike, they share one model:

- createBooking, updateBookingStatus and getBooking: the src version saves the decided booking explicitly, and the server version relies on the transaction's write-back. The effect is the same.
- findAllUsers and findUserById of the src user service are the server's getAllUsers and getUser.

src `createItem` never attaches the request named by `requestId`: `toItem` does not copy it and nothing else sets it, so a created item has no request.

## Model

| member | source | states |
|---|---|---|
| Mappers.ToBooking | server/src/main/java/ru/practicum/shareit/booking/mapper/BookingMapper.java:14-24 | a new booking is unsaved (no id) and WAITING, with the DTO's start and end and the given item and booker |
| Mappers.ToBookingDto | server/src/main/java/ru/practicum/shareit/booking/mapper/BookingMapper.java:26-33 | copies id, start and end, and sets itemId to the booking's item id |
| Mappers.ToBookingDtoResponse | server/src/main/java/ru/practicum/shareit/booking/mapper/BookingMapper.java:35-44 | copies id, start, end and status unchanged, and maps the item and booker with their own mappers |
| Mappers.BookingRoundTrip | server/src/main/java/ru/practicum/shareit/booking/mapper/BookingMapper.java:14-33 | mapping a booking made from a DTO back to a DTO gives that DTO's window and the item's id, and gives the DTO itself when it has no id and names the item |
| Mappers.ToBookingDtoResponses | server/src/main/java/ru/practicum/shareit/booking/service/BookingServiceImpl.java:154-158 | one response per booking, in the same order |
| Mappers.UserRoundTrip | server/src/main/java/ru/practicum/shareit/user/service/UserServiceImpl.java:43-48 | converting a user to a DTO and back gives the same user, and likewise a DTO, so a lookup loses no field |
| Mappers.ToItem | src/main/java/ru/practicum/shareit/item/mapper/ItemMapper.java:17-25 | copies name, description and available; id, owner and request stay null |
| Mappers.RequestIdOf | src/main/java/ru/practicum/shareit/item/mapper/ItemMapper.java:35 | the request id is null when the item has no request, and otherwise the request's id |
| Mappers.ToItemDto | src/main/java/ru/practicum/shareit/item/mapper/ItemMapper.java:27-37 | copies id, name, description and available; requestId is set exactly when the item has a request |
| Mappers.ItemRoundTrip | src/main/java/ru/practicum/shareit/item/mapper/ItemMapper.java:17-37 | toItem(toItemDto(item)) keeps name, description and available; an item built from a DTO maps back to the DTO without id and requestId |
| Mappers.ToItemDtoResponse | src/main/java/ru/practicum/shareit/item/mapper/ItemMapper.java:39-59 | the item's fields; booking and comment lists of the same length and order as the inputs, each element mapped; requestId null without a request; no last or next date |
| BookingRepository.Find | src/main/java/ru/practicum/shareit/booking/repository/BookingRepository.java:13-37 | a derived query returns exactly the bookings whose booker (or whose item's owner) has the id and that meet the condition, each as often as stored, sorted by start date descending |
| BookingRepository.FindByItemId | src/main/java/ru/practicum/shareit/booking/repository/BookingRepository.java:15 | exactly the bookings of the item |
| BookingRepository.FindByItemIdAndBookerIdAndEndDateIsBefore | src/main/java/ru/practicum/shareit/booking/repository/BookingRepository.java:39-41 | exactly the bookings of that item by that booker whose end is strictly before the instant |
| BookingRules.UpperCase | server/src/main/java/ru/practicum/shareit/booking/service/BookingServiceImpl.java:148 | the token with each ASCII lower-case letter made upper-case, all else kept |
| BookingRules.ValueOf | server/src/main/java/ru/practicum/shareit/booking/service/BookingServiceImpl.java:148 | BookingState.valueOf: the constant with exactly that name, or none when no constant has it |
| BookingRules.StateOfToken | server/src/main/java/ru/practicum/shareit/booking/service/BookingServiceImpl.java:148 | a token names a state exactly when its upper-cased form is some state's name, and then that state |
| BookingRules.TokensAreCaseInsensitive | server/src/main/java/ru/practicum/shareit/booking/service/BookingServiceImpl.java:146-152 | every state name, written in any mixture of letter cases, is read as that state |
| BookingRules.NamesDiffer | server/src/main/java/ru/practicum/shareit/booking/service/BookingServiceImpl.java:146-152 | no two states share a name |
| BookingRules.IsBookerOrOwner | server/src/main/java/ru/practicum/shareit/booking/service/BookingServiceImpl.java:160-162 | a caller may see a booking exactly when they are its booker or the owner of its item |
| BookingRules.FindBookingsByState | src/main/java/ru/practicum/shareit/booking/service/BookingServiceImpl.java:104-128 | the query the switch picks returns exactly the user's bookings (as booker, or as owner) that are in the state at now: under way, finished, not started, WAITING, REJECTED or any; all comparisons are strict; each such booking as often as stored; latest start first |
| BookingRules.StateCondition | src/main/java/ru/practicum/shareit/booking/service/BookingServiceImpl.java:108-127 | the repository condition each branch of the switch queries: start before and end after now, end before now, start after now, status WAITING, status REJECTED, or none |
| BookingRules.ConditionMeansState | src/main/java/ru/practicum/shareit/booking/service/BookingServiceImpl.java:108-127 | the condition the switch picks for a state holds of a booking exactly when the booking is in that state at now |
| BookingRules.SameRowsMatch | src/main/java/ru/practicum/shareit/booking/service/BookingServiceImpl.java:104-128 | the query the switch picks and the InState test keep the same rows in the same order |
| BookingService.ParseState | server/src/main/java/ru/practicum/shareit/booking/service/BookingServiceImpl.java:146-152 | succeeds exactly for the six names in any letter case, with the named state, and otherwise fails Validation |
| BookingService.CreateBooking | server/src/main/java/ru/practicum/shareit/booking/service/BookingServiceImpl.java:48-62 | NotFound for an unknown user, then Internal for a null item id, then NotFound for an unknown item, then Validation for an unavailable item, each storing nothing; otherwise exactly one WAITING booking by the caller of that item for the window, which getBooking then returns |
| BookingService.UpdateBookingStatus | server/src/main/java/ru/practicum/shareit/booking/service/BookingServiceImpl.java:66-78 | NotFound for an unknown booking; Validation for anyone but the item's owner, status unchanged; otherwise the status becomes APPROVED or REJECTED whatever it was, and nothing else changes |
| BookingService.Decision | server/src/main/java/ru/practicum/shareit/booking/service/BookingServiceImpl.java:74 | the new status is APPROVED when approved and REJECTED otherwise |
| BookingService.GetBooking | server/src/main/java/ru/practicum/shareit/booking/service/BookingServiceImpl.java:82-91 | NotFound for an unknown id; the booking exactly when the caller is its booker or its item's owner; Validation otherwise |
| BookingService.ListBookings | server/src/main/java/ru/practicum/shareit/booking/service/BookingServiceImpl.java:95-140 | NotFound for an unknown user before the state is parsed; Validation for an unknown state; otherwise the first min(10, n) of the n bookings the state selects, latest start first |
| BookingService.ListIgnoresPaging | server/src/main/java/ru/practicum/shareit/booking/service/BookingServiceImpl.java:98-99 | the list does not depend on from or size |
| LegacyBookingService.ParseState | src/main/java/ru/practicum/shareit/booking/service/BookingServiceImpl.java:134-140 | a token naming a state in any letter case gives that state; any other token gives ALL |
| LegacyBookingService.ParseStateFallsBackToAll | src/main/java/ru/practicum/shareit/booking/service/BookingServiceImpl.java:134-140 | the two versions read every valid token alike; where the server fails, src reads ALL |
| LegacyBookingService.ListBookings | src/main/java/ru/practicum/shareit/booking/service/BookingServiceImpl.java:89-102 | NotFound exactly for an unknown user; otherwise every booking the state selects, unpaged, latest start first |
| LegacyBookingService.ServerPageIsPrefix | server/src/main/java/ru/practicum/shareit/booking/service/BookingServiceImpl.java:95-111 | where the server answers, src answers too, and the server's list is the first min(10, n) entries of src's |
| ItemService.FindAllByOwnerId | src/main/java/ru/practicum/shareit/item/service/ItemServiceImpl.java:94 | exactly the stored items owned by the user |
| ItemService.CommentsOf | src/main/java/ru/practicum/shareit/item/service/ItemServiceImpl.java:145 | exactly the stored comments on the item |
| ItemService.Search | src/main/java/ru/practicum/shareit/item/service/ItemServiceImpl.java:107 | exactly the stored items whose name or description contains the text, ignoring ASCII case |
| ItemService.ContainsIgnoringCase | src/main/java/ru/practicum/shareit/item/service/ItemServiceImpl.java:107 | the text occurs at some position of the name or description when letters are compared without regard to ASCII case |
| ItemService.WithBookingsAndComments | src/main/java/ru/practicum/shareit/item/service/ItemServiceImpl.java:143-163 | the item with all its bookings and comments; lastBooking is an end date of one of its bookings and no smaller than any, nextBooking a start date no larger than any; both are null exactly when the item has no booking |
| ItemService.OwnerViews | src/main/java/ru/practicum/shareit/item/service/ItemServiceImpl.java:95 | the owner's view of each item of the list, in order |
| ItemService.GetItem | src/main/java/ru/practicum/shareit/item/service/ItemServiceImpl.java:76-89 | NotFound exactly for an unknown item; the owner gets the view with dates; anyone else gets the same view with both dates null |
| ItemService.GetUserItems | src/main/java/ru/practicum/shareit/item/service/ItemServiceImpl.java:92-99 | one owner's view per item the user owns, in order; no check that the user exists |
| ItemService.AvailableOnly | src/main/java/ru/practicum/shareit/item/service/ItemServiceImpl.java:107-109 | exactly the items of the list that are available |
| ItemService.IsBlank | src/main/java/ru/practicum/shareit/item/service/ItemServiceImpl.java:103 | `trim().isEmpty()`: every character is a control character or a space |
| ItemService.GetItemsByPattern | src/main/java/ru/practicum/shareit/item/service/ItemServiceImpl.java:102-115 | a blank pattern gives an empty list; otherwise Internal exactly when a found item has a null `available`, else the owner's views of the available found items |
| ItemService.PatternFindsAvailableMatches | src/main/java/ru/practicum/shareit/item/service/ItemServiceImpl.java:102-115 | a search shows the view of exactly the available stored items whose name or description contains the pattern |
| ItemService.AvailableOnlyKeepsOrder | src/main/java/ru/practicum/shareit/item/service/ItemServiceImpl.java:107-109 | the filter keeps the search's order: it distributes over concatenation, and a list of available items is kept whole |
| ItemService.BlankPatternReadsNothing | src/main/java/ru/practicum/shareit/item/service/ItemServiceImpl.java:103 | the answer to a blank pattern is empty whatever the store holds |
| ItemService.FinishedBookingFound | src/main/java/ru/practicum/shareit/item/service/ItemServiceImpl.java:63-67 | in a consistent store the query finds a booking exactly when the user has a booking of the item that ended before now |
| ItemService.CreateItem | src/main/java/ru/practicum/shareit/item/service/ItemServiceImpl.java:44-52 | NotFound for an unknown user, nothing stored; otherwise exactly one item is added with the DTO's fields, that user as owner and no request |
| ItemService.AddComment | src/main/java/ru/practicum/shareit/item/service/ItemServiceImpl.java:56-73 | NotFound for an unknown user, then for an unknown item; Validation exactly when the user has no finished booking of the item; nothing is stored on failure; otherwise exactly one comment by that user on that item, created at the DTO's time, which the item's comments then include |
| ItemService.SaveComment | src/main/java/ru/practicum/shareit/item/service/ItemServiceImpl.java:70 | a new comment on a stored item is stored under the next key, nothing else changes, and it is then among that item's comments |
| ItemService.MergeItem | src/main/java/ru/practicum/shareit/item/service/ItemServiceImpl.java:126-128 | name, description and available are each replaced when the patch has them and kept otherwise; id, owner and request are unchanged |
| ItemService.MergeItemIdempotent | src/main/java/ru/practicum/shareit/item/service/ItemServiceImpl.java:126-128 | applying a patch twice is applying it once, and an empty patch changes nothing |
| ItemService.UpdateItem | src/main/java/ru/practicum/shareit/item/service/ItemServiceImpl.java:119-132 | NotFound for an unknown user, then for an unknown item, changing nothing; otherwise only that item changes, by the merge rule, whoever the caller is |
| ItemService.DeleteItem | src/main/java/ru/practicum/shareit/item/service/ItemServiceImpl.java:137-141 | removes the item if present, and a missing id is not an error; afterwards getItem finds no such item |
| UserService.SaveUser | server/src/main/java/ru/practicum/shareit/user/service/UserServiceImpl.java:37 | a user without a stored id is inserted under the next key; one with a stored id replaces that row |
| UserService.CreateUser | server/src/main/java/ru/practicum/shareit/user/service/UserServiceImpl.java:34-40 | the DTO is saved with no e-mail check, and getUser returns what was saved |
| UserService.GetUser | server/src/main/java/ru/practicum/shareit/user/service/UserServiceImpl.java:43-49 | NotFound exactly for an unknown id; otherwise the stored user |
| UserService.GetAllUsers | server/src/main/java/ru/practicum/shareit/user/service/UserServiceImpl.java:52-59 | one DTO per stored user |
| UserService.ListedUsersAreStored | server/src/main/java/ru/practicum/shareit/user/service/UserServiceImpl.java:43-59 | every stored user is listed, and every listed user is what getUser returns for its id |
| UserService.MergeUser | server/src/main/java/ru/practicum/shareit/user/service/UserServiceImpl.java:68-69 | e-mail and name are each replaced when non-null and kept otherwise; the id never changes |
| UserService.MergeUserIdempotent | server/src/main/java/ru/practicum/shareit/user/service/UserServiceImpl.java:68-69 | applying a patch twice is applying it once, and a patch of nulls changes nothing |
| UserService.UpdateUser | server/src/main/java/ru/practicum/shareit/user/service/UserServiceImpl.java:63-73 | NotFound for an unknown id, changing nothing; otherwise only that user changes, by the merge rule, and getUser returns the result |
| UserService.DeleteUser | server/src/main/java/ru/practicum/shareit/user/service/UserServiceImpl.java:77-81 | removes the user if present, with no existence check; afterwards getUser gives NotFound |
| LegacyUserService.NoneMatch | src/main/java/ru/practicum/shareit/user/service/UserServiceImpl.java:77 | noneMatch in order: false when a listed user has the same e-mail and another id; a NullPointerException exactly when a user whose test dereferences a null field comes before any such clash; true exactly when every listed user is readable and none clashes |
| LegacyUserService.IsEmailUnique | src/main/java/ru/practicum/shareit/user/service/UserServiceImpl.java:75-79 | throws (Internal) exactly when the scan reaches a user whose test throws before any clash; in a consistent store true means no other stored user has the e-mail and false means one does; when every stored user has an e-mail it never throws and answers exactly that |
| LegacyUserService.EmailUniqueIff | src/main/java/ru/practicum/shareit/user/service/UserServiceImpl.java:77 | over the list of all users of a consistent store, noneMatch's true means no other stored user has the e-mail and false means one does; with every e-mail present the answer is always one of the two |
| LegacyUserService.CreateUser | src/main/java/ru/practicum/shareit/user/service/UserServiceImpl.java:41-47 | Validation when another user has the e-mail, Internal when the check throws, storing nothing; otherwise saved as by the server; unique e-mails stay unique |
| LegacyUserService.UpdateUserById | src/main/java/ru/practicum/shareit/user/service/UserServiceImpl.java:51-63 | a non-null e-mail is checked for uniqueness against users other than the path id before the existence check (NotFound); the row becomes the stored user merged with the patch; unique e-mails stay unique |
| LegacyUserService.DeleteUser | src/main/java/ru/practicum/shareit/user/service/UserServiceImpl.java:67-73 | NotFound exactly for an unknown id, removing nothing; otherwise exactly that user is removed |
| ItemRequestService.JavaDivTruncates | server/src/main/java/ru/practicum/shareit/request/service/ItemRequestServiceImpl.java:72 | `from / size` truncates toward zero: the quotient times size lies between 0 and from, less than size away; it is negative only when from <= -size |
| ItemRequestService.JavaDiv | server/src/main/java/ru/practicum/shareit/request/service/ItemRequestServiceImpl.java:72 | Java's int division: it agrees with the mathematical quotient for a non-negative dividend and a positive divisor, is never positive when the signs differ and never negative when they agree |
| ItemRequestService.CreateRequest | server/src/main/java/ru/practicum/shareit/request/service/ItemRequestServiceImpl.java:37-50 | NotFound for an unknown caller, nothing saved; otherwise exactly one request is added with the DTO's description, the caller as requestor and created now, and it is then among the caller's requests |
| ItemRequestService.UserExists | server/src/main/java/ru/practicum/shareit/request/service/ItemRequestServiceImpl.java:102-104 | checkUserExists passes exactly when the user table has a row under the id |
| ItemRequestService.FindByRequestorId | server/src/main/java/ru/practicum/shareit/request/service/ItemRequestServiceImpl.java:58 | exactly the stored requests whose requestor is the user |
| ItemRequestService.LatestFirst | server/src/main/java/ru/practicum/shareit/request/service/ItemRequestServiceImpl.java:57 | the requests reordered by creation time, latest first |
| ItemRequestService.GetUserRequests | server/src/main/java/ru/practicum/shareit/request/service/ItemRequestServiceImpl.java:53-64 | NotFound exactly for an unknown caller; otherwise the caller's requests, each once per row, sorted by created descending |
| ItemRequestService.OwnRequestIsListed | server/src/main/java/ru/practicum/shareit/request/service/ItemRequestServiceImpl.java:53-64 | every stored request of the caller is listed |
| ItemRequestService.GetAllRequests | server/src/main/java/ru/practicum/shareit/request/service/ItemRequestServiceImpl.java:67-80 | NotFound for an unknown caller; otherwise success exactly when size >= 1 and from > -size (else Internal); the page is number from / size, of length size, of all requests latest first |
| ItemRequestService.SmallNegativeOffsetReadsFirstPage | server/src/main/java/ru/practicum/shareit/request/service/ItemRequestServiceImpl.java:72-73 | an offset between -size and size reads the first page |
| ItemRequestService.FirstPageListsEveryRequest | server/src/main/java/ru/practicum/shareit/request/service/ItemRequestServiceImpl.java:71-74 | a first page as long as the number of requests ever created lists every stored request, the caller's own included |
| ItemRequestService.FindByRequestId | server/src/main/java/ru/practicum/shareit/request/service/ItemRequestServiceImpl.java:90 | exactly the stored items whose request has the id |
| ItemRequestService.GetRequestById | server/src/main/java/ru/practicum/shareit/request/service/ItemRequestServiceImpl.java:83-100 | NotFound for an unknown caller, then for an unknown request; otherwise the request with exactly the DTOs of the items offered for it |
| ItemRequestService.FailureLooksUpNoItem | server/src/main/java/ru/practicum/shareit/request/service/ItemRequestServiceImpl.java:85-90 | when either check fails, the answer does not depend on the item table |
| ItemRequestIdentity.HashCode | src/main/java/ru/practicum/shareit/request/model/ItemRequest.java:34-37 | the same value for every instance: the class's hash |
| ItemRequestIdentity.Equals | src/main/java/ru/practicum/shareit/request/model/ItemRequest.java:27-32 | equals: true for the same instance, false for null and other classes, otherwise true exactly when this id is non-null and equals the other id |
| ItemRequestIdentity.EqualsIsReflexive | src/main/java/ru/practicum/shareit/request/model/ItemRequest.java:29 | every instance equals itself, even with a null id |
| ItemRequestIdentity.OtherObjectsAreUnequal | src/main/java/ru/practicum/shareit/request/model/ItemRequest.java:30 | null and objects of other classes are never equal |
| ItemRequestIdentity.UnsavedInstancesAreUnequal | src/main/java/ru/practicum/shareit/request/model/ItemRequest.java:31 | two distinct instances with null ids are unequal, both ways |
| ItemRequestIdentity.SameIdIsEqual | src/main/java/ru/practicum/shareit/request/model/ItemRequest.java:31 | instances with the same non-null id are equal, both ways |
| ItemRequestIdentity.DifferentIdsAreUnequal | src/main/java/ru/practicum/shareit/request/model/ItemRequest.java:31 | instances with different ids are unequal |
| ItemRequestIdentity.EqualsIsSymmetric | src/main/java/ru/practicum/shareit/request/model/ItemRequest.java:27-32 | equals is symmetric |
| ItemRequestIdentity.EqualsIsTransitive | src/main/java/ru/practicum/shareit/request/model/ItemRequest.java:27-32 | equals is transitive |
| ItemRequestIdentity.EqualInstancesHashAlike | src/main/java/ru/practicum/shareit/request/model/ItemRequest.java:27-37 | equal instances have equal hash codes |
| Sequences.Filter | src/main/java/ru/practicum/shareit/item/service/ItemServiceImpl.java:107-109 | `filter` keeps exactly the elements that pass, and is never longer |
| Sequences.FilterAppend | src/main/java/ru/practicum/shareit/item/service/ItemServiceImpl.java:107-109 | filtering keeps relative order: it distributes over concatenation |
| Sequences.FilterKeepsAll | src/main/java/ru/practicum/shareit/item/service/ItemServiceImpl.java:107-109 | a filter every element passes returns the list unchanged |
| Sequences.SortDesc | src/main/java/ru/practicum/shareit/booking/service/BookingServiceImpl.java:105 | sorting by a key, descending, gives a permutation of the input whose keys never increase |
| Sequences.Insert | src/main/java/ru/practicum/shareit/booking/service/BookingServiceImpl.java:105 | inserting into a descending list keeps it descending and adds exactly the one element |
| Sequences.Page | server/src/main/java/ru/practicum/shareit/booking/service/BookingServiceImpl.java:115 | page p of length n holds elements p*n onward, as many as remain but at most n |
| Sequences.MaxOf | src/main/java/ru/practicum/shareit/item/service/ItemServiceImpl.java:147-151 | null exactly for an empty list; otherwise an element no smaller than any |
| Sequences.MinOf | src/main/java/ru/practicum/shareit/item/service/ItemServiceImpl.java:153-157 | null exactly for an empty list; otherwise an element no larger than any |

## Left out

- Controllers, the gateway, DTO validation annotations, message texts, logging and transactions are not modelled. A NotFound error carries its entity kind and id instead of a message.
- The clock is the parameter `now`. Instants are integers and have no time zones or nanoseconds.
- Concurrency is not modelled, including the window in which two bookings of one item both see it available.
- Rows that tie on a sort key keep table-scan order (ascending primary key). The database does not promise any order for ties.
- The queries of ItemRepository, CommentRepository, ItemRequestRepository and UserRepository are not part of this model. `ItemService.Search` assumes the repository query matches when the name or description contains the text, ignoring case, and returns rows in key order.
- CommentMapper, UserMapper and ItemRequestMapper are not part of this model. They are modelled as field copies. A comment takes its text and its `created` time from the DTO, as the server's mapper test shows CommentMapper doing, so `created` is whatever value the DTO carries when it reaches the service; a null `created` is not modelled. A comment's DTO carries the author's name.
- A booking and a comment keep copies of their item and user as they were when saved, where JPA keeps references. Later changes to an item or user are therefore not seen through its bookings and comments.
- Deleting a user or an item leaves the rows that refer to it. Foreign-key constraints and cascades of the schema are not modelled, and neither is a unique constraint on e-mail.
- `ItemService.DeleteItem`: src `deleteItem` has no method-level `@Transactional`, so it runs in the class-level read-only transaction, and Hibernate may never flush the delete to the database. The model removes the row as the code asks; transaction and flush behaviour are not modelled.
- Ids and `from`/`size` are unbounded integers, so Long and int overflow is not modelled.
- `BookingRules.UpperCase`: only ASCII letters are upper-cased. `String.toUpperCase` also maps other letters, some of which (such as the dotless i) become ASCII letters. It also depends on the default locale: under a Turkish locale "waiting" becomes "WAİTİNG", which names no state, so parsing fails there.
- `ItemService.ContainsIgnoringCase`: only ASCII letters are folded.
- `ItemService.IsBlank`: this is `trim()` on UTF-16 code units up to U+0020.
- `UserService.SaveUser`: a user whose id has no row is inserted under a fresh key. Some Hibernate versions reject such a merge instead.
- `LegacyUserService.NoneMatch`: a user with a null id throws only when its e-mail equals the checked one. Stored users always have ids in a consistent store.
- `ItemService.GetItem` and `BookingService.UpdateBookingStatus`: an item without an owner would make the Java code throw. Such items cannot occur in a consistent store, where every item has an owner, and the model compares the missing owner id as different.
- `ItemService.CreateItem`: src `createItem` calls `userService.getUser(userId)`, but the src `UserService` interface declares only `findUserById`. The model reads the call as that lookup: NotFound for an unknown user, otherwise the stored user.
- `BookingService.CreateBooking`: a null booking DTO, and any other null argument passed to a service, are not modelled.
- `ItemRequestIdentity.HashCode`: Hibernate proxy classes, whose `getClass()` differs from the entity class, are not modelled.
- The server's `ItemRequest` and `Item` entity classes are not part of this model. An item request has a non-null creation time and requestor.
