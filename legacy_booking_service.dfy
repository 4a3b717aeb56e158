/** The booking lists of the older BookingServiceImpl (the src application). They differ
    from the server's in two ways: an unknown state token is read as ALL instead of
    failing, and the lists are not paged (every matching booking is returned). Its
    createBooking, updateBookingStatus and getBooking are those of BookingService. */
module LegacyBookingService {
  import opened Common
  import opened Entities
  import opened Sequences
  import opened Mappers
  import opened Store
  import opened BookingRepository
  import opened BookingRules
  import BookingService

  /** parseState: the state named by the token in any letter case, ALL for any other token. */
  function ParseState(token: string): (r: BookingState)
    ensures (exists state :: NameOf(state) == UpperCase(token)) ==> NameOf(r) == UpperCase(token)
    ensures (forall state :: NameOf(state) != UpperCase(token)) ==> r == BookingState.All
  {
    match StateOfToken(token)
    case Some(state) => state
    case None => BookingState.All
  }

  /** The two versions read every known token alike; where the server fails, this one reads ALL. */
  lemma ParseStateFallsBackToAll(token: string)
    ensures BookingService.ParseState(token).Ok? ==> ParseState(token) == BookingService.ParseState(token).value
    ensures BookingService.ParseState(token).Err? ==> ParseState(token) == BookingState.All
  {
  }

  /** getUserBookings (isOwner false) and getOwnerBookings (isOwner true): NotFound for
      an unknown user, checked before the state is read; otherwise every booking the
      state selects, latest start first. */
  function ListBookings(t: Tables, userId: Id, state: string, isOwner: bool, now: Time)
    : (r: Result<seq<BookingDtoResponse>>)
    ensures userId !in t.users <==> r.Err?
    ensures r.Err? ==> r.error == NotFound(UserEntity, userId)
    ensures r.Ok? ==>
              var all := FindBookingsByState(AllBookings(t), userId, ParseState(state), isOwner, now);
              && |r.value| == |all|
              && forall i :: 0 <= i < |all| ==> r.value[i] == ToBookingDtoResponse(all[i])
  {
    if userId !in t.users then Err(NotFound(UserEntity, userId))
    else Ok(ToBookingDtoResponses(FindBookingsByState(AllBookings(t), userId, ParseState(state), isOwner, now)))
  }

  /** Where the server answers, the older version answers the same list, of which the
      server returns the first ten: the server's page is a prefix of the full list. */
  lemma {:induction false} ServerPageIsPrefix(t: Tables, userId: Id, state: string, isOwner: bool,
                                              from: int, size: int, now: Time)
    requires BookingService.ListBookings(t, userId, state, isOwner, from, size, now).Ok?
    ensures ListBookings(t, userId, state, isOwner, now).Ok?
    ensures var page := BookingService.ListBookings(t, userId, state, isOwner, from, size, now).value;
            var full := ListBookings(t, userId, state, isOwner, now).value;
            page == full[..Smaller(BookingService.DefaultPageSize, |full|)]
  {
    ParseStateFallsBackToAll(state);
    var found := FindBookingsByState(AllBookings(t), userId, BookingService.ParseState(state).value, isOwner, now);
    FirstPageIsPrefix(found, BookingService.DefaultPageSize);
  }

  /** The responses to the first page of a list are the first responses to the whole list. */
  lemma FirstPageIsPrefix(found: seq<Booking>, size: nat)
    ensures ToBookingDtoResponses(Page(found, 0, size))
         == ToBookingDtoResponses(found)[..Smaller(size, |found|)]
  {
  }
}
