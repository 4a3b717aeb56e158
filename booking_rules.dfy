/** The decisions both versions of BookingServiceImpl make in the same way: reading a
    state filter (BookingState.valueOf(state.toUpperCase())), who may see a booking,
    and which repository query each state selects (findBookingsByStatus's switch). */
module BookingRules {
  import opened Common
  import opened Entities
  import opened Sequences
  import opened BookingRepository

  /** Character.toUpperCase on the ASCII range: 'a'..'z' become 'A'..'Z'. */
  function UpperChar(c: char): char {
    if 'a' <= c <= 'z' then (c as int - 32) as char else c
  }

  /** String.toUpperCase, letter by letter. */
  function UpperCase(s: string): (r: string)
    ensures |r| == |s| && forall i :: 0 <= i < |s| ==> r[i] == UpperChar(s[i])
  {
    seq(|s|, i requires 0 <= i < |s| => UpperChar(s[i]))
  }

  /** The name of each BookingState constant. */
  function NameOf(state: BookingState): string {
    match state
    case Current => "CURRENT"
    case Past => "PAST"
    case Future => "FUTURE"
    case Waiting => "WAITING"
    case Rejected => "REJECTED"
    case All => "ALL"
  }

  /** BookingState.valueOf: the constant with exactly this name, or none (IllegalArgumentException). */
  function ValueOf(name: string): (r: Option<BookingState>)
    ensures r.Some? ==> NameOf(r.value) == name
    ensures r.None? ==> forall state :: NameOf(state) != name
  {
    if name == "CURRENT" then Some(BookingState.Current)
    else if name == "PAST" then Some(BookingState.Past)
    else if name == "FUTURE" then Some(BookingState.Future)
    else if name == "WAITING" then Some(BookingState.Waiting)
    else if name == "REJECTED" then Some(BookingState.Rejected)
    else if name == "ALL" then Some(BookingState.All)
    else None
  }

  /** The state a token names once upper-cased, if any. */
  function StateOfToken(token: string): (r: Option<BookingState>)
    ensures r.Some? <==> exists state :: NameOf(state) == UpperCase(token)
    ensures r.Some? ==> NameOf(r.value) == UpperCase(token)
  {
    ValueOf(UpperCase(token))
  }

  /** Every state's name is read back as that state, in whatever letter case it is written. */
  lemma {:induction false} TokensAreCaseInsensitive(state: BookingState, token: string)
    requires |token| == |NameOf(state)|
    requires forall i :: 0 <= i < |token| ==> UpperChar(token[i]) == NameOf(state)[i]
    ensures StateOfToken(token) == Some(state)
  {
    assert UpperCase(token) == NameOf(state);
    match ValueOf(NameOf(state))
    case Some(s) => assert NameOf(s) == NameOf(state); NamesDiffer(s, state);
    case None =>
  }

  /** No two states share a name, so the name of a state determines it. */
  lemma NamesDiffer(a: BookingState, b: BookingState)
    requires NameOf(a) == NameOf(b)
    ensures a == b
  {
    match a
    case Current => assert NameOf(b)[0] == 'C';
    case Past => assert NameOf(b)[0] == 'P';
    case Future => assert NameOf(b)[0] == 'F';
    case Waiting => assert NameOf(b)[0] == 'W';
    case Rejected => assert NameOf(b)[0] == 'R';
    case All => assert NameOf(b)[0] == 'A';
  }

  /** isBookerOrOwner: the booking's booker or its item's owner has userId. */
  predicate IsBookerOrOwner(b: Booking, userId: Id) {
    b.booker.id == Some(userId) || OwnerId(b.item) == Some(userId)
  }

  /** The repository query role for the isOwner flag. */
  function RoleOf(isOwner: bool): Role {
    if isOwner then AsOwner else AsBooker
  }

  /** The switch of findBookingsByStatus: the condition each state's query adds, with
      `now` read once and passed for both bounds of CURRENT. */
  function StateCondition(state: BookingState, now: Time): Condition {
    match state
    case Current => StartDateIsBeforeAndEndDateIsAfter(now, now)
    case Past => EndDateIsBefore(now)
    case Future => StartDateIsAfter(now)
    case Waiting => WithStatus(BookingStatus.Waiting)
    case Rejected => WithStatus(BookingStatus.Rejected)
    case All => Unfiltered
  }

  /** What each state means for one booking at instant now, in the terms of the
      booking lifecycle: under way, finished, not started, awaiting a decision,
      rejected, or any booking. All comparisons with now are strict. */
  predicate InState(b: Booking, state: BookingState, now: Time) {
    match state
    case Current => b.start < now < b.end
    case Past => b.end < now
    case Future => now < b.start
    case Waiting => b.status == BookingStatus.Waiting
    case Rejected => b.status == BookingStatus.Rejected
    case All => true
  }

  /** findBookingsByStatus without paging: the user's bookings (as booker, or as the
      item's owner when isOwner) that are in the state at now, latest start first. */
  function FindBookingsByState(rows: seq<Booking>, userId: Id, state: BookingState, isOwner: bool, now: Time)
    : (r: seq<Booking>)
    ensures SortedDesc(r, StartDate)
    ensures forall b :: b in r <==> b in rows && Involves(b, RoleOf(isOwner), userId) && InState(b, state, now)
    ensures multiset(r) == multiset(Filter(rows, InStateFor(userId, state, isOwner, now)))
  {
    SameRowsMatch(rows, userId, state, isOwner, now);
    Find(rows, RoleOf(isOwner), userId, StateCondition(state, now))
  }

  /** The test a booking must pass to be listed, stated with InState. */
  function InStateFor(userId: Id, state: BookingState, isOwner: bool, now: Time): Booking -> bool {
    b => Involves(b, RoleOf(isOwner), userId) && InState(b, state, now)
  }

  /** The condition the switch picks holds of a booking exactly when it is in the state. */
  lemma ConditionMeansState(b: Booking, state: BookingState, now: Time)
    ensures Meets(b, StateCondition(state, now)) <==> InState(b, state, now)
  {
  }

  /** The query the switch picks and the InState test keep the same rows. */
  lemma SameRowsMatch(rows: seq<Booking>, userId: Id, state: BookingState, isOwner: bool, now: Time)
    ensures Filter(rows, Matcher(RoleOf(isOwner), userId, StateCondition(state, now)))
         == Filter(rows, InStateFor(userId, state, isOwner, now))
  {
    var p := Matcher(RoleOf(isOwner), userId, StateCondition(state, now));
    var q := InStateFor(userId, state, isOwner, now);
    forall b | b in rows
      ensures p(b) == q(b)
    {
      ConditionMeansState(b, state, now);
    }
    FilterAgrees(rows, p, q);
  }
}
