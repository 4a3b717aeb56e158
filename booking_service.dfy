/** BookingServiceImpl of the server application: creating a booking, the owner's
    decision on it, reading one booking, and the booker's and owner's booking lists.
    createBooking, updateBookingStatus and getBooking of the older src application
    make the same checks in the same order with the same outcome (it saves the
    decided booking explicitly where the server relies on the transaction's dirty
    check), so they are modelled here once. */
module BookingService {
  import opened Common
  import opened Entities
  import opened Sequences
  import opened Mappers
  import opened Store
  import opened BookingRepository
  import opened BookingRules

  /** DEFAULT_PAGE_NUMBER and DEFAULT_PAGE_SIZE: the one page every list query reads. */
  const DefaultPageNumber: nat := 0
  const DefaultPageSize: nat := 10

  /** parseState: the state named by the token in any letter case; any other token fails. */
  function ParseState(token: string): (r: Result<BookingState>)
    ensures r.Ok? <==> exists state :: NameOf(state) == UpperCase(token)
    ensures r.Ok? ==> NameOf(r.value) == UpperCase(token)
    ensures r.Err? ==> r.error == Validation(UnknownState)
  {
    match StateOfToken(token)
    case Some(state) => Ok(state)
    case None => Err(Validation(UnknownState))
  }

  /** The predicate-level rule a new booking must pass, in the order the checks are made. */
  predicate CanBook(t: Tables, userId: Id, dto: BookingDto) {
    && userId in t.users
    && dto.itemId.Some? && dto.itemId.value in t.items
    && t.items[dto.itemId.value].available != Some(false)
  }

  /** createBooking. The booker must exist (NotFound), then the item (a null item id makes
      findById throw; an unknown one is NotFound), then the item must not be marked
      unavailable (Validation). On any failure nothing is stored. Otherwise exactly one
      booking is added: WAITING, by the caller, of that item, for the requested window. */
  method CreateBooking(db: Database, userId: Id, dto: BookingDto) returns (r: Result<BookingDtoResponse>)
    requires db.Valid()
    modifies db
    ensures db.Valid()
    ensures r.Ok? <==> CanBook(old(db.Snapshot()), userId, dto)
    ensures r.Err? ==> unchanged(db)
    ensures userId !in old(db.users) ==> r == Err(NotFound(UserEntity, userId))
    ensures userId in old(db.users) && dto.itemId.None? ==> r == Err(Internal)
    ensures userId in old(db.users) && dto.itemId.Some? && dto.itemId.value !in old(db.items)
            ==> r == Err(NotFound(ItemEntity, dto.itemId.value))
    ensures userId in old(db.users) && dto.itemId.Some? && dto.itemId.value in old(db.items)
            && old(db.items)[dto.itemId.value].available == Some(false)
            ==> r == Err(Validation(ItemNotAvailable))
    ensures r.Ok? ==>
              var id := old(db.nextBookingId);
              var saved := Booking(Some(id), dto.start, dto.end, old(db.items)[dto.itemId.value],
                                   old(db.users)[userId], BookingStatus.Waiting);
              && db.Snapshot() == old(db.Snapshot()).(bookings := old(db.bookings)[id := saved], nextBookingId := id + 1)
              && id !in old(db.bookings)
              && r.value == ToBookingDtoResponse(saved)
              && GetBooking(db.Snapshot(), userId, id) == Ok(r.value)
  {
    if userId !in db.users {
      return Err(NotFound(UserEntity, userId));
    }
    var booker := db.users[userId];
    if dto.itemId.None? {
      return Err(Internal);
    }
    var itemId := dto.itemId.value;
    if itemId !in db.items {
      return Err(NotFound(ItemEntity, itemId));
    }
    var item := db.items[itemId];
    if item.available == Some(false) {
      return Err(Validation(ItemNotAvailable));
    }
    var id := db.nextBookingId;
    var saved := ToBooking(booker, item, dto).(id := Some(id));
    db.bookings := db.bookings[id := saved];
    db.nextBookingId := id + 1;
    r := Ok(ToBookingDtoResponse(saved));
  }

  /** The status an owner's decision sets. */
  function Decision(approved: bool): BookingStatus {
    if approved then BookingStatus.Approved else BookingStatus.Rejected
  }

  /** updateBookingStatus. An unknown booking is NotFound; a caller who is not the item's
      owner gets Validation and the status is unchanged. The owner's call sets APPROVED or
      REJECTED whatever the status was before, and changes nothing else. */
  method UpdateBookingStatus(db: Database, userId: Id, bookingId: Id, approved: bool)
    returns (r: Result<BookingDtoResponse>)
    requires db.Valid()
    modifies db
    ensures db.Valid()
    ensures bookingId !in old(db.bookings) ==> r == Err(NotFound(BookingEntity, bookingId)) && unchanged(db)
    ensures bookingId in old(db.bookings) && OwnerId(old(db.bookings)[bookingId].item) != Some(userId)
            ==> r == Err(Validation(NotItemOwner)) && unchanged(db)
    ensures bookingId in old(db.bookings) && OwnerId(old(db.bookings)[bookingId].item) == Some(userId) ==>
              var decided := old(db.bookings)[bookingId].(status := Decision(approved));
              && db.Snapshot() == old(db.Snapshot()).(bookings := old(db.bookings)[bookingId := decided])
              && r == Ok(ToBookingDtoResponse(decided))
  {
    if bookingId !in db.bookings {
      return Err(NotFound(BookingEntity, bookingId));
    }
    var booking := db.bookings[bookingId];
    if OwnerId(booking.item) != Some(userId) {
      return Err(Validation(NotItemOwner));
    }
    booking := booking.(status := Decision(approved));
    db.bookings := db.bookings[bookingId := booking];
    r := Ok(ToBookingDtoResponse(booking));
  }

  /** getBooking: NotFound for an unknown id; otherwise the booking, but only for its
      booker or its item's owner; anyone else gets Validation. */
  function GetBooking(t: Tables, userId: Id, bookingId: Id): (r: Result<BookingDtoResponse>)
    ensures bookingId !in t.bookings ==> r == Err(NotFound(BookingEntity, bookingId))
    ensures bookingId in t.bookings ==>
              var b := t.bookings[bookingId];
              && (r.Ok? <==> b.booker.id == Some(userId) || OwnerId(b.item) == Some(userId))
              && (r.Ok? ==> r.value == ToBookingDtoResponse(b))
              && (r.Err? ==> r.error == Validation(ViewRestricted))
  {
    if bookingId !in t.bookings then Err(NotFound(BookingEntity, bookingId))
    else if !IsBookerOrOwner(t.bookings[bookingId], userId) then Err(Validation(ViewRestricted))
    else Ok(ToBookingDtoResponse(t.bookings[bookingId]))
  }

  /** getUserBookings (isOwner false) and getOwnerBookings (isOwner true). The user must
      exist (NotFound), and only then is the state parsed (Validation). The result is the
      first page of ten of the state's query, latest start first: from and size are
      accepted and not used. */
  function ListBookings(t: Tables, userId: Id, state: string, isOwner: bool, from: int, size: int, now: Time)
    : (r: Result<seq<BookingDtoResponse>>)
    ensures userId !in t.users ==> r == Err(NotFound(UserEntity, userId))
    ensures userId in t.users ==> (r.Ok? <==> ParseState(state).Ok?)
    ensures userId in t.users && r.Err? ==> r.error == Validation(UnknownState)
    ensures r.Ok? ==>
              var all := FindBookingsByState(AllBookings(t), userId, ParseState(state).value, isOwner, now);
              && |r.value| == Smaller(DefaultPageSize, |all|)
              && forall i :: 0 <= i < |r.value| ==> r.value[i] == ToBookingDtoResponse(all[i])
  {
    if userId !in t.users then Err(NotFound(UserEntity, userId))
    else
      match ParseState(state)
      case Err(e) => Err(e)
      case Ok(bookingState) =>
        var found := FindBookingsByState(AllBookings(t), userId, bookingState, isOwner, now);
        Ok(ToBookingDtoResponses(Page(found, DefaultPageNumber, DefaultPageSize)))
  }

  /** The list queries' result does not depend on from or size. */
  lemma ListIgnoresPaging(t: Tables, userId: Id, state: string, isOwner: bool, now: Time,
                          from1: int, size1: int, from2: int, size2: int)
    ensures ListBookings(t, userId, state, isOwner, from1, size1, now)
         == ListBookings(t, userId, state, isOwner, from2, size2, now)
  {
  }
}
