/** Vocabulary shared by every part of the ShareIt model: identifiers, instants,
    Java's nullable references, and the errors the services raise. */
module Common {

  /** A primary key. The database generates them from 1 upward (IDENTITY columns);
      ids that arrive in a request may be any Long. */
  type Id = int

  /** A LocalDateTime, as a point on an integer time line. */
  type Time = int

  /** A Java reference that may be null. */
  datatype Option<+T> = None | Some(value: T)

  /** The kind of record a NotFoundException names. */
  datatype Entity = UserEntity | ItemEntity | BookingEntity | RequestEntity

  /** The business rule a ValidationException reports. */
  datatype Violation =
    | ItemNotAvailable      // the item of a new booking has available == false
    | NotItemOwner          // only the item's owner may approve or reject a booking
    | ViewRestricted        // only the booker or the item's owner may read a booking
    | UnknownState          // the state filter of a booking list is not a BookingState name
    | DuplicateEmail        // another user already has this email
    | NotBookedByUser       // a comment needs a finished booking of the item by its author

  /** What a failing service call throws. The message texts are not modelled:
      a NotFound error carries the entity kind and the id its message names. */
  datatype Error =
    | NotFound(entity: Entity, id: Id)
    | Validation(reason: Violation)
    | Internal   // any other runtime exception (division by zero, a rejected page request, a null id)

  /** The outcome of a service call: its return value, or the exception it throws. */
  datatype Result<+T> = Ok(value: T) | Err(error: Error)
}
