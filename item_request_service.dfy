/** ItemRequestServiceImpl of the server application: posting a request for an item,
    a user's own requests, everybody's requests a page at a time, and one request with
    the items offered for it. Every operation first checks that the caller exists. */
module ItemRequestService {
  import opened Common
  import opened Entities
  import opened Sequences
  import opened Mappers
  import opened Store

  /** Java's int division, which truncates toward zero (Dafny's rounds toward minus
      infinity for a negative dividend). */
  function JavaDiv(a: int, b: int): (q: int)
    requires b != 0
    ensures a >= 0 && b > 0 ==> q == a / b
    ensures (a < 0) != (b < 0) ==> q <= 0
    ensures (a < 0) == (b < 0) ==> q >= 0
  {
    var n := Abs(a) / Abs(b);
    assert n >= 0 by { NatDivBounds(Abs(a), Abs(b)); }
    if (a < 0) != (b < 0) then -n else n
  }

  function Abs(x: int): nat { if x < 0 then -x else x }

  /** The quotient of a by a positive b truncates toward zero: q * b lies between 0 and a,
      less than b away from a. So it is never negative unless a <= -b. */
  lemma JavaDivTruncates(a: int, b: int)
    requires b > 0
    ensures var q := JavaDiv(a, b);
      && Abs(q * b) <= Abs(a) < Abs(q * b) + b
      && (q > 0 ==> a > 0) && (q < 0 ==> a < 0)
      && (q >= 0 <==> a > -b)
  {
    var n := Abs(a) / b;
    NatDivBounds(Abs(a), b);
    var p := n * b;
    if a < 0 {
      assert JavaDiv(a, b) == -n;
      NegatedProduct(n, b);
    } else {
      assert JavaDiv(a, b) == n;
    }
  }

  /** The quotient n of x >= 0 by b > 0: n * b lies within b below x, and n is 0 exactly
      when x < b. */
  lemma NatDivBounds(x: nat, b: int)
    requires b > 0
    ensures x / b >= 0
    ensures (x / b) * b <= x < (x / b) * b + b
    ensures x / b == 0 <==> x < b
    ensures x / b > 0 ==> (x / b) * b >= b
  {
    var n := x / b;
    assert x == n * b + x % b;
    if n > 0 {
      assert n * b == (n - 1) * b + b;
      NonNegativeProduct(n - 1, b);
    }
  }

  lemma NonNegativeProduct(m: int, b: int)
    requires m >= 0 && b > 0
    ensures m * b >= 0
  {
  }

  lemma NegatedProduct(n: int, b: int)
    ensures (-n) * b == -(n * b)
  {
  }

  /** checkUserExists: userRepository.existsById. */
  predicate UserExists(t: Tables, userId: Id) { userId in t.users }

  /** The sort key of Sort.by(DESC, "created"). */
  function Created(request: ItemRequest): int { request.created }

  /** The requests listed by created, latest first. */
  function LatestFirst(requests: seq<ItemRequest>): (r: seq<ItemRequest>)
    ensures SortedDesc(r, Created) && multiset(r) == multiset(requests)
    ensures forall q :: q in r <==> q in requests
  {
    var sorted := SortDesc(requests, Created);
    SameElements(sorted, requests);
    sorted
  }

  function ToItemRequestDtos(requests: seq<ItemRequest>): (r: seq<ItemRequestDto>)
    ensures |r| == |requests| && forall k :: 0 <= k < |r| ==> r[k] == ToItemRequestDto(requests[k])
  {
    seq(|requests|, k requires 0 <= k < |requests| => ToItemRequestDto(requests[k]))
  }

  /** createRequest: NotFound for an unknown caller, nothing saved. Otherwise exactly one
      request is saved: the DTO's description, requested by the caller, created now. It
      is then among the caller's own requests. */
  method CreateRequest(db: Database, userId: Id, dto: ItemRequestDto, now: Time) returns (r: Result<ItemRequestDto>)
    requires db.Valid()
    modifies db
    ensures db.Valid()
    ensures userId !in old(db.users) ==> r == Err(NotFound(UserEntity, userId)) && unchanged(db)
    ensures userId in old(db.users) ==>
              var id := old(db.nextRequestId);
              var saved := ItemRequest(Some(id), dto.description, old(db.users)[userId], now);
              && db.Snapshot() == old(db.Snapshot()).(requests := old(db.requests)[id := saved], nextRequestId := id + 1)
              && r == Ok(ToItemRequestDto(saved))
              && GetUserRequests(db.Snapshot(), userId).Ok?
              && r.value in GetUserRequests(db.Snapshot(), userId).value
  {
    if !UserExists(db.Snapshot(), userId) {
      return Err(NotFound(UserEntity, userId));
    }
    var requestor := db.users[userId];
    var id := db.nextRequestId;
    var saved := ItemRequest(Some(id), dto.description, requestor, now);
    db.requests := db.requests[id := saved];
    db.nextRequestId := id + 1;
    r := Ok(ToItemRequestDto(saved));
    SavedRequestIsListed(db.Snapshot(), userId, id);
  }

  /** The request stored under id, when its requestor is the caller, is among the
      caller's requests. */
  lemma SavedRequestIsListed(t: Tables, userId: Id, id: Id)
    requires Consistent(t) && UserExists(t, userId) && id in t.requests
    requires t.requests[id].requestor.id == Some(userId)
    ensures ToItemRequestDto(t.requests[id]) in GetUserRequests(t, userId).value
  {
    ScansListEveryRow(t);
    assert t.requests[id] in t.requests.Values;
    OwnRequestIsListed(t, userId, t.requests[id]);
  }

  /** findByRequestorId: the requests whose requestor has this id, in table order. */
  function FindByRequestorId(t: Tables, userId: Id): (r: seq<ItemRequest>)
    ensures forall q :: q in r <==> q in AllRequests(t) && q.requestor.id == Some(userId)
  {
    Filter(AllRequests(t), (q: ItemRequest) => q.requestor.id == Some(userId))
  }

  /** getUserRequests: NotFound for an unknown caller; otherwise the caller's requests,
      latest first, each listed once per row. */
  function GetUserRequests(t: Tables, userId: Id): (r: Result<seq<ItemRequestDto>>)
    ensures !UserExists(t, userId) <==> r.Err?
    ensures r.Err? ==> r.error == NotFound(UserEntity, userId)
    ensures r.Ok? ==>
              var own := LatestFirst(FindByRequestorId(t, userId));
              && SortedDesc(own, Created)
              && multiset(own) == multiset(FindByRequestorId(t, userId))
              && r.value == ToItemRequestDtos(own)
  {
    if !UserExists(t, userId) then Err(NotFound(UserEntity, userId))
    else Ok(ToItemRequestDtos(LatestFirst(FindByRequestorId(t, userId))))
  }

  /** A stored request of the caller is among the caller's own requests. */
  lemma OwnRequestIsListed(t: Tables, userId: Id, request: ItemRequest)
    requires UserExists(t, userId)
    requires request in AllRequests(t) && request.requestor.id == Some(userId)
    ensures ToItemRequestDto(request) in GetUserRequests(t, userId).value
  {
    var own := LatestFirst(FindByRequestorId(t, userId));
    var k :| 0 <= k < |own| && own[k] == request;
    assert GetUserRequests(t, userId).value[k] == ToItemRequestDto(request);
  }

  /** getAllRequests. NotFound for an unknown caller; then a size of 0 divides by zero,
      and a page index from / size below 0 or a size below 1 is refused by PageRequest
      (both Internal). Otherwise page from / size, of length size, of all requests
      (the caller's included) latest first. */
  function GetAllRequests(t: Tables, userId: Id, from: int, size: int): (r: Result<seq<ItemRequestDto>>)
    ensures !UserExists(t, userId) ==> r == Err(NotFound(UserEntity, userId))
    ensures UserExists(t, userId) ==> (r.Ok? <==> size >= 1 && from > -size)
    ensures UserExists(t, userId) && r.Err? ==> r.error == Internal
    ensures r.Ok? ==>
              var all := LatestFirst(AllRequests(t));
              var page := JavaDiv(from, size);
              && page >= 0
              && r.value == ToItemRequestDtos(Page(all, page, size))
  {
    if !UserExists(t, userId) then Err(NotFound(UserEntity, userId))
    else if size == 0 then Err(Internal)
    else
      var page := JavaDiv(from, size);
      assert size > 0 ==> (page >= 0 <==> from > -size) by {
        if size > 0 { JavaDivTruncates(from, size); }
      }
      if page < 0 || size < 1 then Err(Internal)
      else Ok(ToItemRequestDtos(Page(LatestFirst(AllRequests(t)), page, size)))
  }

  /** A negative offset smaller than the page size still reads the first page, because
      the division truncates toward zero. */
  lemma SmallNegativeOffsetReadsFirstPage(t: Tables, userId: Id, from: int, size: int)
    requires UserExists(t, userId) && size >= 1 && -size < from < size
    ensures GetAllRequests(t, userId, from, size) == GetAllRequests(t, userId, 0, size)
  {
    JavaDivOfSmall(from, size);
    JavaDivOfSmall(0, size);
  }

  lemma JavaDivOfSmall(a: int, b: int)
    requires -b < a < b
    ensures JavaDiv(a, b) == 0
  {
    DivSmall(Abs(a), Abs(b));
  }

  lemma DivSmall(x: int, d: int)
    requires 0 <= x < d
    ensures x / d == 0
  {
  }

  /** With a first page at least as long as the number of requests ever created,
      getAllRequests lists every stored request, the caller's own ones included. */
  lemma {:induction false} FirstPageListsEveryRequest(t: Tables, userId: Id, size: int)
    requires Consistent(t) && UserExists(t, userId)
    requires size >= 1 && size >= t.nextRequestId - 1
    ensures GetAllRequests(t, userId, 0, size).Ok?
    ensures forall q :: q in t.requests.Values ==> ToItemRequestDto(q) in GetAllRequests(t, userId, 0, size).value
  {
    var all := LatestFirst(AllRequests(t));
    FirstPageIsWhole(t, size);
    var r := GetAllRequests(t, userId, 0, size).value;
    assert r == ToItemRequestDtos(all);
    MappedElements(all, r, ToItemRequestDto);
    ScansListEveryRow(t);
  }

  /** With a page at least as long as the number of requests ever created, the first
      page holds all of them. */
  lemma FirstPageIsWhole(t: Tables, size: int)
    requires 1 <= t.nextRequestId && size >= 1 && size >= t.nextRequestId - 1
    ensures JavaDiv(0, size) == 0
    ensures Page(LatestFirst(AllRequests(t)), 0, size) == LatestFirst(AllRequests(t))
  {
    JavaDivOfSmall(0, size);
    ScanLength(t.requests, 1, t.nextRequestId);
    var all := LatestFirst(AllRequests(t));
    assert |multiset(all)| == |multiset(AllRequests(t))|;
    assert |all| <= size;
  }

  /** A scan of the keys in [lo, hi) lists at most hi - lo rows. */
  lemma {:induction false} ScanLength<T(!new)>(table: map<Id, T>, lo: Id, hi: Id)
    requires lo <= hi
    ensures |Rows(table, lo, hi)| <= hi - lo
    decreases hi - lo
  {
    if lo < hi {
      ScanLength(table, lo + 1, hi);
    }
  }

  /** itemRepository.findByRequestId: the items offered for the request, in table order. */
  function FindByRequestId(t: Tables, requestId: Id): (r: seq<Item>)
    ensures forall i :: i in r <==> i in AllItems(t) && RequestIdOf(i) == Some(requestId)
  {
    Filter(AllItems(t), (i: Item) => RequestIdOf(i) == Some(requestId))
  }

  /** getRequestById: NotFound for an unknown caller, then for an unknown request;
      otherwise the request with exactly the items offered for it. */
  function GetRequestById(t: Tables, userId: Id, requestId: Id): (r: Result<ItemRequestDto>)
    ensures !UserExists(t, userId) ==> r == Err(NotFound(UserEntity, userId))
    ensures UserExists(t, userId) && requestId !in t.requests ==> r == Err(NotFound(RequestEntity, requestId))
    ensures UserExists(t, userId) && requestId in t.requests ==>
              && r.Ok?
              && r.value.(items := []) == ToItemRequestDto(t.requests[requestId])
              && forall d :: d in r.value.items <==>
                   exists i :: i in AllItems(t) && RequestIdOf(i) == Some(requestId) && d == ToItemDto(i)
  {
    if !UserExists(t, userId) then Err(NotFound(UserEntity, userId))
    else if requestId !in t.requests then Err(NotFound(RequestEntity, requestId))
    else
      var offered := FindByRequestId(t, requestId);
      var dtos := seq(|offered|, k requires 0 <= k < |offered| => ToItemDto(offered[k]));
      MappedElements(offered, dtos, (i: Item) => ToItemDto(i));
      Ok(ToItemRequestDto(t.requests[requestId]).(items := dtos))
  }

  /** When the caller or the request is unknown, the answer does not depend on the item
      table: no item is looked up. */
  lemma FailureLooksUpNoItem(t: Tables, userId: Id, requestId: Id, items: map<Id, Item>, nextItemId: Id)
    requires GetRequestById(t, userId, requestId).Err?
    ensures GetRequestById(t.(items := items, nextItemId := nextItemId), userId, requestId)
         == GetRequestById(t, userId, requestId)
  {
  }
}
