/** The field-copying mappers between entities and transfer objects. BookingMapper
    and ItemMapper call each other (toBookingDtoResponse maps the item with toItemDto,
    toItemDtoResponse maps the bookings with toBookingDto), so they share one module.
    UserMapper, CommentMapper and ItemRequestMapper are used by them and by the
    services; they are modelled as plain field copies. */
module Mappers {
  import opened Common
  import opened Entities

  // ---- UserMapper -----------------------------------------------------------

  function ToUserDto(user: User): UserDto {
    UserDto(user.id, user.name, user.email)
  }

  function ToUser(dto: UserDto): User {
    User(dto.id, dto.name, dto.email)
  }

  /** toUser(toUserDto(u)) is u again: looking a user up through the user service loses nothing. */
  lemma UserRoundTrip(user: User, dto: UserDto)
    ensures ToUser(ToUserDto(user)) == user
    ensures ToUserDto(ToUser(dto)) == dto
  {
  }

  // ---- BookingMapper --------------------------------------------------------

  /** toBooking: a new, unsaved booking of item by user for the window of the DTO, WAITING. */
  function ToBooking(user: User, item: Item, dto: BookingDto): (b: Booking)
    ensures b.id.None? && b.status == BookingStatus.Waiting
    ensures b.start == dto.start && b.end == dto.end
    ensures b.item == item && b.booker == user
  {
    Booking(None, dto.start, dto.end, item, user, BookingStatus.Waiting)
  }

  function ToBookingDto(booking: Booking): (dto: BookingDto)
    ensures dto.id == booking.id && dto.itemId == booking.item.id
    ensures dto.start == booking.start && dto.end == booking.end
  {
    BookingDto(booking.id, booking.item.id, booking.start, booking.end)
  }

  function ToBookingDtoResponse(booking: Booking): (r: BookingDtoResponse)
    ensures r.id == booking.id && r.status == booking.status
    ensures r.start == booking.start && r.end == booking.end
    ensures r.item == ToItemDto(booking.item) && r.booker == ToUserDto(booking.booker)
  {
    BookingDtoResponse(booking.id, ToItemDto(booking.item), booking.start, booking.end,
                       ToUserDto(booking.booker), booking.status)
  }

  /** mapToDtoResponse: one response per booking, in the same order. */
  function ToBookingDtoResponses(bookings: seq<Booking>): (r: seq<BookingDtoResponse>)
    ensures |r| == |bookings|
    ensures forall i :: 0 <= i < |bookings| ==> r[i] == ToBookingDtoResponse(bookings[i])
  {
    seq(|bookings|, i requires 0 <= i < |bookings| => ToBookingDtoResponse(bookings[i]))
  }

  /** Mapping a booking made from a DTO back to a DTO gives the request's window and the
      item's id; the id is unset until the booking is saved. So an unsaved request that
      names its item comes back unchanged. */
  lemma BookingRoundTrip(user: User, item: Item, dto: BookingDto)
    ensures ToBookingDto(ToBooking(user, item, dto)) == dto.(id := None, itemId := item.id)
    ensures dto.id.None? && dto.itemId == item.id ==> ToBookingDto(ToBooking(user, item, dto)) == dto
  {
  }

  // ---- ItemMapper -----------------------------------------------------------

  /** toItem: copies name, description and available; id, owner and request stay null. */
  function ToItem(dto: ItemDto): (item: Item)
    ensures item.name == dto.name && item.description == dto.description && item.available == dto.available
    ensures item.id.None? && item.owner.None? && item.request.None?
  {
    Item(None, dto.name, dto.description, dto.available, None, None)
  }

  /** The id of the request an item answers, null when it answers none. */
  function RequestIdOf(item: Item): (r: Option<Id>)
    ensures item.request.None? ==> r.None?
    ensures item.request.Some? ==> r == item.request.value.id
  {
    if item.request.Some? then item.request.value.id else None
  }

  function ToItemDto(item: Item): (dto: ItemDto)
    ensures dto.id == item.id && dto.name == item.name
    ensures dto.description == item.description && dto.available == item.available
    ensures dto.requestId == RequestIdOf(item)
  {
    ItemDto(item.id, item.name, item.description, item.available, RequestIdOf(item))
  }

  /** toItemDto followed by toItem keeps the three fields a client can set; and an item
      built from a DTO maps back to that DTO without its id and request id. */
  lemma ItemRoundTrip(item: Item, dto: ItemDto)
    ensures var back := ToItem(ToItemDto(item));
      back.name == item.name && back.description == item.description && back.available == item.available
    ensures ToItemDto(ToItem(dto)) == dto.(id := None, requestId := None)
  {
  }

  function ToCommentDto(comment: Comment): CommentDto {
    CommentDto(comment.id, comment.text, comment.author.name, comment.created)
  }

  /** toItemDtoResponse: the item's fields, its bookings and comments mapped one by one
      in the order given, and no last or next booking date. */
  function ToItemDtoResponse(item: Item, bookings: seq<Booking>, comments: seq<Comment>): (r: ItemDtoResponse)
    ensures r.id == item.id && r.name == item.name && r.description == item.description
    ensures r.available == item.available && r.requestId == RequestIdOf(item)
    ensures |r.bookings| == |bookings| && forall i :: 0 <= i < |bookings| ==> r.bookings[i] == ToBookingDto(bookings[i])
    ensures |r.comments| == |comments| && forall i :: 0 <= i < |comments| ==> r.comments[i] == ToCommentDto(comments[i])
    ensures r.lastBooking.None? && r.nextBooking.None?
  {
    ItemDtoResponse(
      item.id, item.name, item.description, item.available, RequestIdOf(item),
      seq(|bookings|, i requires 0 <= i < |bookings| => ToBookingDto(bookings[i])),
      seq(|comments|, i requires 0 <= i < |comments| => ToCommentDto(comments[i])),
      None, None)
  }

  // ---- ItemRequestMapper ----------------------------------------------------

  function ToItemRequestDto(request: ItemRequest): ItemRequestDto {
    ItemRequestDto(request.id, request.description, request.created, [])
  }
}
