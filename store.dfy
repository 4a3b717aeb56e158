/** The relational store behind the repositories: one table per entity, keyed by the
    primary key, each with its IDENTITY counter. `Database` is the mutable store the
    services write to; `Tables` is a snapshot of it that the read-only service
    operations are functions of. */
module Store {
  import opened Common
  import opened Entities

  datatype Tables = Tables(
    users: map<Id, User>,
    items: map<Id, Item>,
    bookings: map<Id, Booking>,
    comments: map<Id, Comment>,
    requests: map<Id, ItemRequest>,
    nextUserId: Id,
    nextItemId: Id,
    nextBookingId: Id,
    nextCommentId: Id,
    nextRequestId: Id)

  /** A saved row's id is its key. */
  predicate HasId(id: Option<Id>, key: Id) { id == Some(key) }

  /** An item whose owner and owner id are both set, as every saved item's are. */
  predicate Owned(item: Item) { OwnerId(item).Some? }

  /** A saved booking: its id is its key, its item has an owner and its booker an id. */
  predicate SavedBooking(b: Booking, key: Id) {
    HasId(b.id, key) && Owned(b.item) && b.booker.id.Some?
  }

  /** What every saved state satisfies: each row's id is its key, keys were generated
      from 1 below the table's counter, and items (also the item of each booking) have an owner,
      as createItem always sets one. */
  predicate Consistent(t: Tables) {
    && (forall k :: k in t.users ==> 1 <= k < t.nextUserId && HasId(t.users[k].id, k))
    && (forall k :: k in t.items ==> 1 <= k < t.nextItemId && HasId(t.items[k].id, k) && Owned(t.items[k]))
    && (forall k :: k in t.bookings ==> 1 <= k < t.nextBookingId && SavedBooking(t.bookings[k], k))
    && (forall k :: k in t.comments ==> 1 <= k < t.nextCommentId && HasId(t.comments[k].id, k))
    && (forall k :: k in t.requests ==> 1 <= k < t.nextRequestId && HasId(t.requests[k].id, k))
    && 1 <= t.nextUserId && 1 <= t.nextItemId && 1 <= t.nextBookingId
    && 1 <= t.nextCommentId && 1 <= t.nextRequestId
  }

  /** A scan of the rows with keys in [lo, hi), in key order. */
  function Rows<T(!new)>(table: map<Id, T>, lo: Id, hi: Id): (r: seq<T>)
    decreases hi - lo
    ensures forall k :: lo <= k < hi && k in table ==> table[k] in r
    ensures forall x :: x in r ==> exists k :: lo <= k < hi && k in table && table[k] == x
  {
    if lo >= hi then []
    else (if lo in table then [table[lo]] else []) + Rows(table, lo + 1, hi)
  }

  /** The booking table, scanned in key order. */
  function AllBookings(t: Tables): seq<Booking> { Rows(t.bookings, 1, t.nextBookingId) }

  function AllItems(t: Tables): seq<Item> { Rows(t.items, 1, t.nextItemId) }

  function AllUsers(t: Tables): seq<User> { Rows(t.users, 1, t.nextUserId) }

  function AllComments(t: Tables): seq<Comment> { Rows(t.comments, 1, t.nextCommentId) }

  function AllRequests(t: Tables): seq<ItemRequest> { Rows(t.requests, 1, t.nextRequestId) }

  /** In a consistent state a full scan of each table lists exactly the table's rows. */
  lemma ScansListEveryRow(t: Tables)
    requires Consistent(t)
    ensures forall b :: b in AllBookings(t) <==> b in t.bookings.Values
    ensures forall i :: i in AllItems(t) <==> i in t.items.Values
    ensures forall u :: u in AllUsers(t) <==> u in t.users.Values
    ensures forall c :: c in AllComments(t) <==> c in t.comments.Values
    ensures forall r :: r in AllRequests(t) <==> r in t.requests.Values
  {
  }

  /** The empty store of a fresh database. */
  const Empty := Tables(map[], map[], map[], map[], map[], 1, 1, 1, 1, 1)

  class Database {
    var users: map<Id, User>
    var items: map<Id, Item>
    var bookings: map<Id, Booking>
    var comments: map<Id, Comment>
    var requests: map<Id, ItemRequest>
    var nextUserId: Id
    var nextItemId: Id
    var nextBookingId: Id
    var nextCommentId: Id
    var nextRequestId: Id

    /** The current content of every table. */
    function Snapshot(): Tables
      reads this
    {
      Tables(users, items, bookings, comments, requests,
             nextUserId, nextItemId, nextBookingId, nextCommentId, nextRequestId)
    }

    ghost predicate Valid()
      reads this
    {
      Consistent(Snapshot())
    }

    constructor ()
      ensures Valid() && Snapshot() == Empty
    {
      users, items, bookings, comments, requests := map[], map[], map[], map[], map[];
      nextUserId, nextItemId, nextBookingId, nextCommentId, nextRequestId := 1, 1, 1, 1, 1;
    }
  }
}
