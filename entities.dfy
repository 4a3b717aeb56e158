/** The persistent entities of ShareIt and the transfer objects the services return.
    A field is an Option where the code can leave the Java reference null: the id
    of an entity before it is saved, and every field of a DTO used as a partial update. */
module Entities {
  import opened Common

  /** A booking's lifecycle status. */
  datatype BookingStatus = Waiting | Approved | Rejected

  /** The filter a booking list is asked for (not the same thing as a status).
      Written qualified (BookingState.Waiting) where it could be read as a status. */
  datatype BookingState = Current | Past | Future | Waiting | Rejected | All

  datatype User = User(id: Option<Id>, name: Option<string>, email: Option<string>)

  datatype ItemRequest = ItemRequest(id: Option<Id>, description: string, requestor: User, created: Time)

  datatype Item = Item(
    id: Option<Id>,
    name: Option<string>,
    description: Option<string>,
    available: Option<bool>,
    owner: Option<User>,
    request: Option<ItemRequest>)

  /** A booking holds its item and its booker as JPA references; here they are the
      records as they were when the booking was made (see README, "Left out"). */
  datatype Booking = Booking(
    id: Option<Id>,
    start: Time,
    end: Time,
    item: Item,
    booker: User,
    status: BookingStatus)

  datatype Comment = Comment(id: Option<Id>, text: string, item: Item, author: User, created: Time)

  datatype UserDto = UserDto(id: Option<Id>, name: Option<string>, email: Option<string>)

  datatype ItemDto = ItemDto(
    id: Option<Id>,
    name: Option<string>,
    description: Option<string>,
    available: Option<bool>,
    requestId: Option<Id>)

  datatype BookingDto = BookingDto(id: Option<Id>, itemId: Option<Id>, start: Time, end: Time)

  datatype BookingDtoResponse = BookingDtoResponse(
    id: Option<Id>,
    item: ItemDto,
    start: Time,
    end: Time,
    booker: UserDto,
    status: BookingStatus)

  datatype CommentDto = CommentDto(id: Option<Id>, text: string, authorName: Option<string>, created: Time)

  datatype ItemDtoResponse = ItemDtoResponse(
    id: Option<Id>,
    name: Option<string>,
    description: Option<string>,
    available: Option<bool>,
    requestId: Option<Id>,
    bookings: seq<BookingDto>,
    comments: seq<CommentDto>,
    lastBooking: Option<Time>,
    nextBooking: Option<Time>)

  datatype ItemRequestDto = ItemRequestDto(id: Option<Id>, description: string, created: Time, items: seq<ItemDto>)

  /** item.getOwner().getId(): the id of the item's owner, None when either reference is null. */
  function OwnerId(item: Item): Option<Id> {
    if item.owner.Some? then item.owner.value.id else None
  }
}
