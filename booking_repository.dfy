/** The derived queries of BookingRepository. Each query name reads as a conjunction
    of conditions on a booking: whose booking it is (findByBookerId / findByItemOwnerId),
    and at most one date or status condition. Queries with a Sort argument return their
    rows ordered by startDate, latest first. Date comparisons in a derived query
    (IsBefore, IsAfter) are strict. */
module BookingRepository {
  import opened Common
  import opened Entities
  import opened Sequences

  /** Which user id the query matches: the booker's (findByBooker...) or the item owner's (findByItemOwner...). */
  datatype Role = AsBooker | AsOwner

  /** The condition after the user id in a query name. */
  datatype Condition =
    | Unfiltered                                      // findByBookerId, findByItemOwnerId
    | EndDateIsBefore(end: Time)                      // ...AndEndDateIsBefore
    | StartDateIsAfter(start: Time)                   // ...AndStartDateIsAfter
    | WithStatus(status: BookingStatus)               // ...AndStatus
    | StartDateIsBeforeAndEndDateIsAfter(start: Time, end: Time)

  predicate Involves(b: Booking, role: Role, userId: Id) {
    match role
    case AsBooker => b.booker.id == Some(userId)
    case AsOwner => OwnerId(b.item) == Some(userId)
  }

  predicate Meets(b: Booking, c: Condition) {
    match c
    case Unfiltered => true
    case EndDateIsBefore(end) => b.end < end
    case StartDateIsAfter(start) => b.start > start
    case WithStatus(status) => b.status == status
    case StartDateIsBeforeAndEndDateIsAfter(start, end) => b.start < start && b.end > end
  }

  /** The WHERE clause of a query, as a predicate on rows. */
  function Matcher(role: Role, userId: Id, c: Condition): Booking -> bool {
    b => Involves(b, role, userId) && Meets(b, c)
  }

  /** The sort key of Sort.by(DESC, "startDate"). */
  function StartDate(b: Booking): int { b.start }

  /** A query of lines 13-37 run over the booking table: exactly the rows whose booker
      (or whose item's owner) has userId and that meet the condition, each as often as
      the table holds it, latest start first. */
  function Find(rows: seq<Booking>, role: Role, userId: Id, c: Condition): (r: seq<Booking>)
    ensures forall b :: b in r <==> b in rows && Involves(b, role, userId) && Meets(b, c)
    ensures multiset(r) == multiset(Filter(rows, Matcher(role, userId, c)))
    ensures SortedDesc(r, StartDate)
  {
    var matching := Filter(rows, Matcher(role, userId, c));
    var sorted := SortDesc(matching, StartDate);
    SameElements(sorted, matching);
    sorted
  }

  /** findByItemId: the bookings of one item, in table order. */
  function FindByItemId(rows: seq<Booking>, itemId: Option<Id>): (r: seq<Booking>)
    ensures forall b :: b in r <==> b in rows && b.item.id == itemId
  {
    Filter(rows, (b: Booking) => b.item.id == itemId)
  }

  /** findByItemIdAndBookerIdAndEndDateIsBefore: the bookings of one item by one booker
      that ended strictly before `end`. */
  function FindByItemIdAndBookerIdAndEndDateIsBefore(rows: seq<Booking>, itemId: Id, bookerId: Id, end: Time)
    : (r: seq<Booking>)
    ensures forall b :: b in r <==> b in rows && b.item.id == Some(itemId) && b.booker.id == Some(bookerId) && b.end < end
  {
    Filter(rows, (b: Booking) => b.item.id == Some(itemId) && b.booker.id == Some(bookerId) && b.end < end)
  }
}
