/** UserServiceImpl of the older src application. Unlike the server's it keeps e-mail
    addresses unique: createUser and updateUserById refuse an address another user has.
    Its findAllUsers and findUserById are the server's getAllUsers and getUser
    (UserService.GetAllUsers, UserService.GetUser). */
module LegacyUserService {
  import opened Common
  import opened Entities
  import opened Mappers
  import opened Store
  import UserService

  /** The test of isEmailUnique's noneMatch for one listed user: same e-mail, other id. */
  predicate Clashes(u: UserDto, dto: UserDto) {
    u.email.Some? && u.email == dto.email && u.id.Some? && u.id != dto.id
  }

  /** Evaluating that test throws for this listed user: its e-mail is null, or the
      e-mails are equal and its id is null. */
  predicate Unreadable(u: UserDto, dto: UserDto) {
    u.email.None? || (u.email == dto.email && u.id.None?)
  }

  /** noneMatch stops by throwing at the i-th listed user: its test throws and no user
      before it clashes. */
  predicate ThrowsAt(users: seq<UserDto>, dto: UserDto, i: int) {
    0 <= i < |users| && Unreadable(users[i], dto) && forall j :: 0 <= j < i ==> !Clashes(users[j], dto)
  }

  /** noneMatch over the listed users, in order: false at the first clash, a
      NullPointerException (Internal) at the first user whose test throws before one. */
  function NoneMatch(users: seq<UserDto>, dto: UserDto): (r: Result<bool>)
    ensures r.Err? ==> r.error == Internal
    ensures r.Err? <==> exists i :: ThrowsAt(users, dto, i)
    ensures r == Ok(true) <==> forall u :: u in users ==> !Unreadable(u, dto) && !Clashes(u, dto)
    ensures r == Ok(false) ==> exists u :: u in users && Clashes(u, dto)
  {
    if users == [] then Ok(true)
    else if Unreadable(users[0], dto) then
      assert ThrowsAt(users, dto, 0);
      Err(Internal)
    else if Clashes(users[0], dto) then
      assert forall i :: 0 < i ==> !ThrowsAt(users, dto, i);
      Ok(false)
    else
      var rest := NoneMatch(users[1..], dto);
      assert forall u :: u in users ==> u == users[0] || u in users[1..];
      assert forall i :: ThrowsAt(users, dto, i) <==> i > 0 && ThrowsAt(users[1..], dto, i - 1) by {
        forall i ensures ThrowsAt(users, dto, i) <==> i > 0 && ThrowsAt(users[1..], dto, i - 1) {
          if 0 < i < |users| {
            assert users[i] == users[1..][i - 1];
            assert forall j :: 0 <= j < i - 1 ==> users[j + 1] == users[1..][j];
            assert forall j :: 0 < j < i ==> users[j] == users[1..][j - 1];
          }
        }
      }
      assert rest.Err? ==> exists i :: ThrowsAt(users, dto, i) by {
        if rest.Err? {
          var i :| ThrowsAt(users[1..], dto, i);
          assert ThrowsAt(users, dto, i + 1);
        }
      }
      rest
  }

  /** isEmailUnique: noneMatch over findAllUsers. It throws (Internal) exactly when the
      scan reaches a user whose test throws before any clash. In a consistent store, true
      means no other stored user has the e-mail and false means one does; when every
      stored user has an e-mail it never throws and answers exactly that. */
  function IsEmailUnique(t: Tables, dto: UserDto): (r: Result<bool>)
    ensures r.Err? ==> r.error == Internal
    ensures r.Err? <==> exists i :: ThrowsAt(UserService.GetAllUsers(t), dto, i)
    ensures Consistent(t) && r == Ok(true) ==> !EmailTaken(t, dto)
    ensures Consistent(t) && r == Ok(false) ==> EmailTaken(t, dto)
    ensures Consistent(t) && EmailsPresent(t) ==> r == Ok(!EmailTaken(t, dto))
  {
    var r := NoneMatch(UserService.GetAllUsers(t), dto);
    assert Consistent(t) ==>
      && (r == Ok(true) ==> !EmailTaken(t, dto))
      && (r == Ok(false) ==> EmailTaken(t, dto))
      && (EmailsPresent(t) ==> r == Ok(!EmailTaken(t, dto))) by {
      if Consistent(t) { EmailUniqueIff(t, dto); }
    }
    r
  }

  /** A stored user other than dto.id already has dto's (non-null) e-mail. */
  predicate EmailTaken(t: Tables, dto: UserDto) {
    exists k :: k in t.users && t.users[k].email.Some? && t.users[k].email == dto.email && dto.id != Some(k)
  }

  /** Every stored user has an e-mail address, as the controllers' validation demands. */
  predicate EmailsPresent(t: Tables) {
    forall k :: k in t.users ==> t.users[k].email.Some?
  }

  /** No two stored users share a (non-null) e-mail address. */
  predicate UniqueEmails(t: Tables) {
    forall k1, k2 ::
      k1 in t.users && k2 in t.users && t.users[k1].email.Some? && t.users[k1].email == t.users[k2].email
      ==> k1 == k2
  }

  /** In a consistent store noneMatch over all users answers (never throws when every
      user has an e-mail) exactly whether no other user has the address. */
  lemma {:induction false} EmailUniqueIff(t: Tables, dto: UserDto)
    requires Consistent(t)
    ensures NoneMatch(UserService.GetAllUsers(t), dto) == Ok(true) ==> !EmailTaken(t, dto)
    ensures NoneMatch(UserService.GetAllUsers(t), dto) == Ok(false) ==> EmailTaken(t, dto)
    ensures EmailsPresent(t) ==> NoneMatch(UserService.GetAllUsers(t), dto) == Ok(!EmailTaken(t, dto))
  {
    var all := UserService.GetAllUsers(t);
    UserService.ListedUsersAreStored(t);
    var r := NoneMatch(all, dto);
    if r == Ok(true) {
      forall k | k in t.users && t.users[k].email.Some? && t.users[k].email == dto.email
        ensures dto.id == Some(k)
      {
        var u := UserService.GetUser(t, k).value;
        assert u in all && !Clashes(u, dto);
      }
    }
    if r == Ok(false) {
      var u :| u in all && Clashes(u, dto);
      assert UserService.GetUser(t, u.id.value) == Ok(u);
      assert t.users[u.id.value].email == u.email;
    }
    if EmailsPresent(t) {
      assert r.Ok?;
      if r.value { assert !EmailTaken(t, dto); } else { assert EmailTaken(t, dto); }
    }
  }

  /** createUser: Validation when another user has the e-mail, and nothing is stored;
      otherwise the DTO is saved as the server's createUser saves it. */
  method CreateUser(db: Database, dto: UserDto) returns (r: Result<UserDto>)
    requires db.Valid()
    modifies db
    ensures db.Valid()
    ensures IsEmailUnique(old(db.Snapshot()), dto).Err? ==> r == Err(Internal) && unchanged(db)
    ensures IsEmailUnique(old(db.Snapshot()), dto) == Ok(false) ==> r == Err(Validation(DuplicateEmail)) && unchanged(db)
    ensures IsEmailUnique(old(db.Snapshot()), dto) == Ok(true) ==>
              && r.Ok?
              && r.value.id.Some? && UserService.GetUser(db.Snapshot(), r.value.id.value) == Ok(r.value)
              && ((dto.id.None? || dto.id.value !in old(db.users)) ==>
                    && r.value == dto.(id := Some(old(db.nextUserId)))
                    && db.Snapshot() == old(db.Snapshot()).(users := old(db.users)[old(db.nextUserId) := ToUser(r.value)],
                                                            nextUserId := old(db.nextUserId) + 1))
              && ((dto.id.Some? && dto.id.value in old(db.users)) ==>
                    && r.value == dto
                    && db.Snapshot() == old(db.Snapshot()).(users := old(db.users)[dto.id.value := ToUser(dto)]))
    ensures old(UniqueEmails(db.Snapshot())) ==> UniqueEmails(db.Snapshot())
  {
    var check := IsEmailUnique(db.Snapshot(), dto);
    if check.Err? {
      return Err(Internal);
    }
    if !check.value {
      return Err(Validation(DuplicateEmail));
    }
    var created := UserService.CreateUser(db, dto);
    r := Ok(created);
  }

  /** updateUserById. The path id replaces the DTO's id. A non-null e-mail that another
      user has is refused (Validation) before the user is looked up (NotFound); a null one
      is not checked. The stored row is replaced by the DTO with its null fields taken
      from the stored user: the server's merge rule. */
  method UpdateUserById(db: Database, userId: Id, dto: UserDto) returns (r: Result<UserDto>)
    requires db.Valid()
    modifies db
    ensures db.Valid()
    ensures var patch := dto.(id := Some(userId));
            var check := IsEmailUnique(old(db.Snapshot()), patch);
            && (dto.email.Some? && check.Err? ==> r == Err(Internal) && unchanged(db))
            && (dto.email.Some? && check == Ok(false) ==> r == Err(Validation(DuplicateEmail)) && unchanged(db))
            && ((dto.email.None? || check == Ok(true)) && userId !in old(db.users) ==>
                  r == Err(NotFound(UserEntity, userId)) && unchanged(db))
            && ((dto.email.None? || check == Ok(true)) && userId in old(db.users) ==>
                  var updated := UserService.MergeUser(old(db.users)[userId], dto);
                  && db.Snapshot() == old(db.Snapshot()).(users := old(db.users)[userId := updated])
                  && r == Ok(ToUserDto(updated)))
    ensures old(UniqueEmails(db.Snapshot())) ==> UniqueEmails(db.Snapshot())
  {
    var patch := dto.(id := Some(userId));
    if patch.email.Some? {
      var check := IsEmailUnique(db.Snapshot(), patch);
      if check.Err? {
        return Err(Internal);
      }
      if !check.value {
        return Err(Validation(DuplicateEmail));
      }
    }
    if userId !in db.users {
      return Err(NotFound(UserEntity, userId));
    }
    var user := db.users[userId];
    var newUser := ToUser(patch);
    newUser := newUser.(email := if newUser.email.Some? then newUser.email else user.email);
    newUser := newUser.(name := if newUser.name.Some? then newUser.name else user.name);
    var saved := UserService.SaveUser(db, newUser);
    r := Ok(ToUserDto(saved));
  }

  /** deleteUser: NotFound for an unknown id, nothing removed; otherwise exactly that
      user is removed. */
  method DeleteUser(db: Database, userId: Id) returns (r: Result<()>)
    requires db.Valid()
    modifies db
    ensures db.Valid()
    ensures userId !in old(db.users) <==> r.Err?
    ensures r.Err? ==> r.error == NotFound(UserEntity, userId) && unchanged(db)
    ensures r.Ok? ==> db.Snapshot() == old(db.Snapshot()).(users := old(db.users) - {userId})
  {
    var found := UserService.GetUser(db.Snapshot(), userId);
    if found.Err? {
      return Err(found.error);
    }
    db.users := db.users - {userId};
    r := Ok(());
  }
}
