/** ItemServiceImpl (src application): creating, reading, searching, updating and
    deleting items, and commenting on them. */
module ItemService {
  import opened Common
  import opened Entities
  import opened Sequences
  import opened Mappers
  import opened Store
  import opened BookingRepository

  // ---- queries of the item and comment repositories ------------------------

  /** findAllByOwnerId: the items whose owner has this id, in table order. */
  function FindAllByOwnerId(t: Tables, ownerId: Id): (r: seq<Item>)
    ensures forall i :: i in r <==> i in AllItems(t) && OwnerId(i) == Some(ownerId)
  {
    Filter(AllItems(t), (i: Item) => OwnerId(i) == Some(ownerId))
  }

  /** commentRepository.findByItemId: the comments on one item, in table order. */
  function CommentsOf(t: Tables, itemId: Option<Id>): (r: seq<Comment>)
    ensures forall c :: c in r <==> c in AllComments(t) && c.item.id == itemId
  {
    Filter(AllComments(t), (c: Comment) => c.item.id == itemId)
  }

  /** A character of a name compared without regard to ASCII letter case. */
  function LowerChar(c: char): char {
    if 'A' <= c <= 'Z' then (c as int + 32) as char else c
  }

  /** needle occurs in text at position i, comparing letters without regard to ASCII case. */
  predicate MatchesAt(text: string, needle: string, i: int) {
    && 0 <= i <= |text| - |needle|
    && forall j | 0 <= j < |needle| :: LowerChar(text[i + j]) == LowerChar(needle[j])
  }

  /** needle occurs somewhere in text, comparing letters without regard to ASCII case. */
  predicate ContainsIgnoringCase(text: string, needle: string) {
    exists i | 0 <= i <= |text| - |needle| :: MatchesAt(text, needle, i)
  }

  /** itemRepository.search: items whose name or description contains the text,
      ignoring case, in table order (the query itself is described in README). */
  function Search(t: Tables, text: string): (r: seq<Item>)
    ensures forall i :: i in r <==> i in AllItems(t) && Mentions(i, text)
  {
    Filter(AllItems(t), (i: Item) => Mentions(i, text))
  }

  predicate Mentions(item: Item, text: string) {
    || (item.name.Some? && ContainsIgnoringCase(item.name.value, text))
    || (item.description.Some? && ContainsIgnoringCase(item.description.value, text))
  }

  // ---- the item view ---------------------------------------------------------

  function Ends(bookings: seq<Booking>): (r: seq<int>)
    ensures |r| == |bookings| && forall i :: 0 <= i < |bookings| ==> r[i] == bookings[i].end
  {
    seq(|bookings|, i requires 0 <= i < |bookings| => bookings[i].end)
  }

  function Starts(bookings: seq<Booking>): (r: seq<int>)
    ensures |r| == |bookings| && forall i :: 0 <= i < |bookings| ==> r[i] == bookings[i].start
  {
    seq(|bookings|, i requires 0 <= i < |bookings| => bookings[i].start)
  }

  /** toItemDtoResponseWithBookingsAndComments: the item with all its bookings and
      comments, lastBooking the latest end and nextBooking the earliest start among ALL
      its bookings (past, current and future alike), both null when it has none. */
  function WithBookingsAndComments(t: Tables, item: Item): (r: ItemDtoResponse)
    ensures var bookings := FindByItemId(AllBookings(t), item.id);
      && r == ToItemDtoResponse(item, bookings, CommentsOf(t, item.id)).(lastBooking := r.lastBooking,
                                                                         nextBooking := r.nextBooking)
      && (r.lastBooking.None? <==> bookings == [])
      && (r.nextBooking.None? <==> bookings == [])
      && (r.lastBooking.Some? ==> (exists b :: b in bookings && b.end == r.lastBooking.value)
                                  && forall b :: b in bookings ==> b.end <= r.lastBooking.value)
      && (r.nextBooking.Some? ==> (exists b :: b in bookings && b.start == r.nextBooking.value)
                                  && forall b :: b in bookings ==> r.nextBooking.value <= b.start)
  {
    var bookings := FindByItemId(AllBookings(t), item.id);
    var comments := CommentsOf(t, item.id);
    var last := MaxOf(Ends(bookings));
    var next := MinOf(Starts(bookings));
    assert forall b :: b in bookings ==> b.end in Ends(bookings) && b.start in Starts(bookings) by {
      forall b | b in bookings ensures b.end in Ends(bookings) && b.start in Starts(bookings) {
        var k :| 0 <= k < |bookings| && bookings[k] == b;
        assert Ends(bookings)[k] == b.end && Starts(bookings)[k] == b.start;
      }
    }
    assert last.Some? ==> exists b :: b in bookings && b.end == last.value by {
      if last.Some? {
        var k :| 0 <= k < |bookings| && Ends(bookings)[k] == last.value;
        assert bookings[k] in bookings;
      }
    }
    assert next.Some? ==> exists b :: b in bookings && b.start == next.value by {
      if next.Some? {
        var k :| 0 <= k < |bookings| && Starts(bookings)[k] == next.value;
        assert bookings[k] in bookings;
      }
    }
    ToItemDtoResponse(item, bookings, comments).(lastBooking := last, nextBooking := next)
  }

  /** The owner's view of each item of a list, in the list's order. */
  function OwnerViews(t: Tables, items: seq<Item>): (r: seq<ItemDtoResponse>)
    ensures |r| == |items| && forall k :: 0 <= k < |items| ==> r[k] == WithBookingsAndComments(t, items[k])
  {
    seq(|items|, k requires 0 <= k < |items| => WithBookingsAndComments(t, items[k]))
  }

  /** getItem: NotFound for an unknown item. Its owner sees the last and next booking
      dates; anyone else gets the item with its bookings and comments but no dates. */
  function GetItem(t: Tables, userId: Id, itemId: Id): (r: Result<ItemDtoResponse>)
    ensures itemId !in t.items <==> r.Err?
    ensures r.Err? ==> r.error == NotFound(ItemEntity, itemId)
    ensures r.Ok? && OwnerId(t.items[itemId]) == Some(userId) ==> r.value == WithBookingsAndComments(t, t.items[itemId])
    ensures r.Ok? && OwnerId(t.items[itemId]) != Some(userId) ==>
              && r.value.lastBooking.None? && r.value.nextBooking.None?
              && r.value == WithBookingsAndComments(t, t.items[itemId]).(lastBooking := None, nextBooking := None)
  {
    if itemId !in t.items then Err(NotFound(ItemEntity, itemId))
    else
      var item := t.items[itemId];
      if OwnerId(item) != Some(userId) then
        Ok(ToItemDtoResponse(item, FindByItemId(AllBookings(t), item.id), CommentsOf(t, item.id)))
      else Ok(WithBookingsAndComments(t, item))
  }

  /** getUserItems: the owner's view of every item the user owns; no check that the user exists. */
  function GetUserItems(t: Tables, userId: Id): (r: seq<ItemDtoResponse>)
    ensures |r| == |FindAllByOwnerId(t, userId)|
    ensures forall k :: 0 <= k < |r| ==>
              OwnerId(FindAllByOwnerId(t, userId)[k]) == Some(userId)
              && r[k] == WithBookingsAndComments(t, FindAllByOwnerId(t, userId)[k])
  {
    OwnerViews(t, FindAllByOwnerId(t, userId))
  }

  /** String.trim().isEmpty(): trim strips every character up to U+0020 from both ends. */
  predicate IsBlank(s: string) {
    forall i :: 0 <= i < |s| ==> s[i] <= ' '
  }

  /** filter(Item::getAvailable): the available items of a search, in the search's order. */
  function AvailableOnly(items: seq<Item>): (r: seq<Item>)
    ensures forall i :: i in r <==> i in items && i.available == Some(true)
  {
    Filter(items, (i: Item) => i.available == Some(true))
  }

  /** getItemsByPattern. A blank pattern gives an empty list without a search. Otherwise
      the search's available items in its order, each in its owner's view. Unboxing a
      null `available` in the filter throws. */
  function GetItemsByPattern(t: Tables, pattern: string): (r: Result<seq<ItemDtoResponse>>)
    ensures IsBlank(pattern) ==> r == Ok([])
    ensures !IsBlank(pattern) ==>
              (r.Err? <==> exists i :: i in Search(t, pattern) && i.available.None?)
    ensures r.Err? ==> r.error == Internal
    ensures !IsBlank(pattern) && r.Ok? ==> r.value == OwnerViews(t, AvailableOnly(Search(t, pattern)))
  {
    if IsBlank(pattern) then Ok([])
    else
      var found := Search(t, pattern);
      if exists i :: i in found && i.available.None? then Err(Internal)
      else Ok(OwnerViews(t, AvailableOnly(found)))
  }

  /** What a search answers: the owner's view of exactly the available items of the
      store whose name or description contains the pattern. */
  lemma {:induction false} PatternFindsAvailableMatches(t: Tables, pattern: string)
    requires !IsBlank(pattern) && GetItemsByPattern(t, pattern).Ok?
    ensures forall v :: v in GetItemsByPattern(t, pattern).value <==>
              exists i :: Shown(t, pattern, i) && v == WithBookingsAndComments(t, i)
  {
    var found := AvailableOnly(Search(t, pattern));
    var views := GetItemsByPattern(t, pattern).value;
    MappedElements(found, views, (i: Item) => WithBookingsAndComments(t, i));
    assert forall i :: i in found <==> Shown(t, pattern, i);
  }

  /** An item a search for the pattern shows: stored, available, and mentioning it. */
  predicate Shown(t: Tables, pattern: string, i: Item) {
    i in AllItems(t) && Mentions(i, pattern) && i.available == Some(true)
  }

  /** Keeping the available items keeps their order: it distributes over concatenation,
      and a list of available items is kept whole. */
  lemma AvailableOnlyKeepsOrder(a: seq<Item>, b: seq<Item>)
    ensures AvailableOnly(a + b) == AvailableOnly(a) + AvailableOnly(b)
    ensures (forall i :: i in a ==> i.available == Some(true)) ==> AvailableOnly(a) == a
  {
    FilterAppend(a, b, (i: Item) => i.available == Some(true));
    if forall i :: i in a ==> i.available == Some(true) {
      FilterKeepsAll(a, (i: Item) => i.available == Some(true));
    }
  }

  /** A blank pattern's answer does not depend on the store: no query is made. */
  lemma BlankPatternReadsNothing(t1: Tables, t2: Tables, pattern: string)
    requires IsBlank(pattern)
    ensures GetItemsByPattern(t1, pattern) == GetItemsByPattern(t2, pattern) == Ok([])
  {
  }

  /** Whether the user has a booking of the item that ended strictly before now. */
  predicate HasFinishedBooking(t: Tables, itemId: Id, userId: Id, now: Time) {
    exists k :: k in t.bookings && t.bookings[k].item.id == Some(itemId)
                && t.bookings[k].booker.id == Some(userId) && t.bookings[k].end < now
  }

  /** In a consistent store, the repository query addComment runs finds a booking exactly
      when the user has a finished booking of the item. */
  lemma FinishedBookingFound(t: Tables, itemId: Id, userId: Id, now: Time)
    requires Consistent(t)
    ensures FindByItemIdAndBookerIdAndEndDateIsBefore(AllBookings(t), itemId, userId, now) != []
            <==> HasFinishedBooking(t, itemId, userId, now)
  {
    var finished := FindByItemIdAndBookerIdAndEndDateIsBefore(AllBookings(t), itemId, userId, now);
    ScansListEveryRow(t);
    if finished != [] {
      assert finished[0] in finished;
      assert finished[0] in t.bookings.Values;
      var k :| k in t.bookings && t.bookings[k] == finished[0];
    }
    if HasFinishedBooking(t, itemId, userId, now) {
      var k :| k in t.bookings && t.bookings[k].item.id == Some(itemId)
               && t.bookings[k].booker.id == Some(userId) && t.bookings[k].end < now;
      assert t.bookings[k] in t.bookings.Values;
      assert t.bookings[k] in finished;
    }
  }

  // ---- operations that change the store -------------------------------------

  /** createItem: NotFound when the user does not exist; otherwise the item is saved with
      that user as owner and no request, whatever requestId the DTO names. */
  method CreateItem(db: Database, userId: Id, dto: ItemDto) returns (r: Result<ItemDto>)
    requires db.Valid()
    modifies db
    ensures db.Valid()
    ensures userId !in old(db.users) ==> r == Err(NotFound(UserEntity, userId)) && unchanged(db)
    ensures userId in old(db.users) ==>
              var id := old(db.nextItemId);
              var saved := Item(Some(id), dto.name, dto.description, dto.available, Some(old(db.users)[userId]), None);
              && db.Snapshot() == old(db.Snapshot()).(items := old(db.items)[id := saved], nextItemId := id + 1)
              && r == Ok(ToItemDto(saved))
  {
    if userId !in db.users {
      return Err(NotFound(UserEntity, userId));
    }
    var found := ToUserDto(db.users[userId]);
    var owner := ToUser(found);
    UserRoundTrip(db.users[userId], found);
    var id := db.nextItemId;
    var item := ToItem(dto).(owner := Some(owner), id := Some(id));
    db.items := db.items[id := item];
    db.nextItemId := id + 1;
    r := Ok(ToItemDto(item));
  }

  /** addComment: NotFound for an unknown user, then for an unknown item; Validation
      unless the user has a booking of the item that ended before now. Otherwise exactly
      one comment is saved, by that user on that item, with the DTO's text and creation
      time (the comment mapper copies both). */
  method AddComment(db: Database, userId: Id, itemId: Id, dto: CommentDto, now: Time) returns (r: Result<CommentDto>)
    requires db.Valid()
    modifies db
    ensures db.Valid()
    ensures r.Err? ==> unchanged(db)
    ensures userId !in old(db.users) ==> r == Err(NotFound(UserEntity, userId))
    ensures userId in old(db.users) && itemId !in old(db.items) ==> r == Err(NotFound(ItemEntity, itemId))
    ensures userId in old(db.users) && itemId in old(db.items) ==>
              (r.Ok? <==> HasFinishedBooking(old(db.Snapshot()), itemId, userId, now))
    ensures userId in old(db.users) && itemId in old(db.items) && r.Err? ==> r.error == Validation(NotBookedByUser)
    ensures r.Ok? ==>
              var id := old(db.nextCommentId);
              var saved := Comment(Some(id), dto.text, old(db.items)[itemId], old(db.users)[userId], dto.created);
              && db.Snapshot() == old(db.Snapshot()).(comments := old(db.comments)[id := saved], nextCommentId := id + 1)
              && r == Ok(ToCommentDto(saved))
              && saved in CommentsOf(db.Snapshot(), Some(itemId))
  {
    if userId !in db.users {
      return Err(NotFound(UserEntity, userId));
    }
    var user := db.users[userId];
    if itemId !in db.items {
      return Err(NotFound(ItemEntity, itemId));
    }
    var item := db.items[itemId];
    assert item.id == Some(itemId);
    var finished := FindByItemIdAndBookerIdAndEndDateIsBefore(AllBookings(db.Snapshot()), itemId, userId, now);
    FinishedBookingFound(db.Snapshot(), itemId, userId, now);
    if finished == [] {
      return Err(Validation(NotBookedByUser));
    }
    var comment := Comment(None, dto.text, item, user, dto.created);
    var saved := SaveComment(db, comment);
    r := Ok(ToCommentDto(saved));
  }

  /** commentRepository.save for a new comment on a stored item: stored under the next
      key, and then among that item's comments. */
  method SaveComment(db: Database, comment: Comment) returns (saved: Comment)
    requires db.Valid() && comment.item.id.Some? && comment.item.id.value in db.items
    modifies db
    ensures db.Valid()
    ensures saved == comment.(id := Some(old(db.nextCommentId)))
    ensures db.Snapshot() == old(db.Snapshot()).(comments := old(db.comments)[old(db.nextCommentId) := saved],
                                                 nextCommentId := old(db.nextCommentId) + 1)
    ensures saved in CommentsOf(db.Snapshot(), comment.item.id)
  {
    var id := db.nextCommentId;
    saved := comment.(id := Some(id));
    db.comments := db.comments[id := saved];
    db.nextCommentId := id + 1;
    StoredCommentIsListed(db.Snapshot(), id);
  }

  /** A stored comment is among the comments of its item. */
  lemma StoredCommentIsListed(t: Tables, id: Id)
    requires Consistent(t) && id in t.comments
    ensures t.comments[id] in CommentsOf(t, t.comments[id].item.id)
  {
    ScansListEveryRow(t);
    assert t.comments[id] in t.comments.Values;
  }

  /** The merge rule of updateItem: name, description and available each replaced when
      the patch has it, kept otherwise; id, owner and request untouched. */
  function MergeItem(item: Item, patch: ItemDto): (r: Item)
    ensures r.name == (if patch.name.Some? then patch.name else item.name)
    ensures r.description == (if patch.description.Some? then patch.description else item.description)
    ensures r.available == (if patch.available.Some? then patch.available else item.available)
    ensures r.id == item.id && r.owner == item.owner && r.request == item.request
  {
    Item(item.id,
         if patch.name.Some? then patch.name else item.name,
         if patch.description.Some? then patch.description else item.description,
         if patch.available.Some? then patch.available else item.available,
         item.owner, item.request)
  }

  /** Applying the same patch twice changes nothing more, and an empty patch changes nothing. */
  lemma MergeItemIdempotent(item: Item, patch: ItemDto)
    ensures MergeItem(MergeItem(item, patch), patch) == MergeItem(item, patch)
    ensures MergeItem(item, patch.(name := None, description := None, available := None)) == item
  {
  }

  /** updateItem: NotFound for an unknown user, then for an unknown item. Any existing user
      may update any item (there is no ownership check); the stored item is changed in
      place by the merge rule and every other row stays as it was. */
  method UpdateItem(db: Database, userId: Id, itemId: Id, dto: ItemDto) returns (r: Result<ItemDto>)
    requires db.Valid()
    modifies db
    ensures db.Valid()
    ensures userId !in old(db.users) ==> r == Err(NotFound(UserEntity, userId)) && unchanged(db)
    ensures userId in old(db.users) && itemId !in old(db.items) ==> r == Err(NotFound(ItemEntity, itemId)) && unchanged(db)
    ensures userId in old(db.users) && itemId in old(db.items) ==>
              var updated := MergeItem(old(db.items)[itemId], dto);
              && db.Snapshot() == old(db.Snapshot()).(items := old(db.items)[itemId := updated])
              && r == Ok(ToItemDto(updated))
  {
    if userId !in db.users {
      return Err(NotFound(UserEntity, userId));
    }
    if itemId !in db.items {
      return Err(NotFound(ItemEntity, itemId));
    }
    var updating := db.items[itemId];
    if dto.name.Some? {
      updating := updating.(name := dto.name);
    }
    if dto.description.Some? {
      updating := updating.(description := dto.description);
    }
    if dto.available.Some? {
      updating := updating.(available := dto.available);
    }
    db.items := db.items[itemId := updating];
    r := Ok(ToItemDto(updating));
  }

  /** deleteItem: removes the item if there is one; an unknown id is not an error. */
  method DeleteItem(db: Database, itemId: Id)
    requires db.Valid()
    modifies db
    ensures db.Valid()
    ensures db.Snapshot() == old(db.Snapshot()).(items := old(db.items) - {itemId})
    ensures forall userId :: GetItem(db.Snapshot(), userId, itemId) == Err(NotFound(ItemEntity, itemId))
  {
    db.items := db.items - {itemId};
  }
}
