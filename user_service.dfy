/** UserServiceImpl of the server application: creating, reading, listing, updating and
    deleting users, with no rule on e-mail addresses. The user repository's save, which
    the older src service uses as well, is modelled here too. */
module UserService {
  import opened Common
  import opened Entities
  import opened Mappers
  import opened Store

  /** userRepository.save(user). A user without an id, or with an id that has no row, is
      inserted under the next generated key; a user whose id has a row replaces that row.
      The saved record, with its key as id, is returned. */
  method SaveUser(db: Database, user: User) returns (saved: User)
    requires db.Valid()
    modifies db
    ensures db.Valid()
    ensures (user.id.None? || user.id.value !in old(db.users)) ==>
              && saved == user.(id := Some(old(db.nextUserId)))
              && db.Snapshot() == old(db.Snapshot()).(users := old(db.users)[old(db.nextUserId) := saved],
                                                      nextUserId := old(db.nextUserId) + 1)
    ensures (user.id.Some? && user.id.value in old(db.users)) ==>
              && saved == user
              && db.Snapshot() == old(db.Snapshot()).(users := old(db.users)[user.id.value := user])
  {
    if user.id.Some? && user.id.value in db.users {
      db.users := db.users[user.id.value := user];
      saved := user;
    } else {
      var id := db.nextUserId;
      saved := user.(id := Some(id));
      db.users := db.users[id := saved];
      db.nextUserId := id + 1;
    }
  }

  /** getUser: the stored user, NotFound for an unknown id. */
  function GetUser(t: Tables, id: Id): (r: Result<UserDto>)
    ensures id in t.users <==> r.Ok?
    ensures r.Err? ==> r.error == NotFound(UserEntity, id)
    ensures r.Ok? ==> ToUser(r.value) == t.users[id]
  {
    if id !in t.users then Err(NotFound(UserEntity, id)) else Ok(ToUserDto(t.users[id]))
  }

  /** getAllUsers: one DTO per stored user, in key order. */
  function GetAllUsers(t: Tables): (r: seq<UserDto>)
    ensures |r| == |AllUsers(t)|
    ensures forall k :: 0 <= k < |r| ==> r[k] == ToUserDto(AllUsers(t)[k])
  {
    seq(|AllUsers(t)|, k requires 0 <= k < |AllUsers(t)| => ToUserDto(AllUsers(t)[k]))
  }

  /** In a consistent store the list of all users and the lookup by id agree: every stored
      user is listed, and every listed user is what getUser answers for its id. */
  lemma ListedUsersAreStored(t: Tables)
    requires Consistent(t)
    ensures forall id :: id in t.users ==> GetUser(t, id).value in GetAllUsers(t)
    ensures forall dto :: dto in GetAllUsers(t) ==> dto.id.Some? && GetUser(t, dto.id.value) == Ok(dto)
  {
    ScansListEveryRow(t);
    var all := GetAllUsers(t);
    forall id | id in t.users
      ensures GetUser(t, id).value in all
    {
      assert t.users[id] in t.users.Values;
      var k :| 0 <= k < |AllUsers(t)| && AllUsers(t)[k] == t.users[id];
      assert all[k] == GetUser(t, id).value;
    }
    forall dto | dto in all
      ensures dto.id.Some? && GetUser(t, dto.id.value) == Ok(dto)
    {
      var k :| 0 <= k < |all| && all[k] == dto;
      var u := AllUsers(t)[k];
      assert u in t.users.Values;
      var key :| key in t.users && t.users[key] == u;
    }
  }

  /** createUser: the DTO saved as it is; there is no check on the e-mail address. */
  method CreateUser(db: Database, dto: UserDto) returns (r: UserDto)
    requires db.Valid()
    modifies db
    ensures db.Valid()
    ensures (dto.id.None? || dto.id.value !in old(db.users)) ==>
              && r == dto.(id := Some(old(db.nextUserId)))
              && db.Snapshot() == old(db.Snapshot()).(users := old(db.users)[old(db.nextUserId) := ToUser(r)],
                                                      nextUserId := old(db.nextUserId) + 1)
    ensures (dto.id.Some? && dto.id.value in old(db.users)) ==>
              && r == dto
              && db.Snapshot() == old(db.Snapshot()).(users := old(db.users)[dto.id.value := ToUser(dto)])
    ensures r.id.Some? && GetUser(db.Snapshot(), r.id.value) == Ok(r)
  {
    var saved := SaveUser(db, ToUser(dto));
    r := ToUserDto(saved);
  }

  /** The merge rule of updateUser: e-mail and name each replaced when the patch has one,
      kept otherwise; the id is never touched. */
  function MergeUser(user: User, patch: UserDto): (r: User)
    ensures r.id == user.id
    ensures r.email == (if patch.email.Some? then patch.email else user.email)
    ensures r.name == (if patch.name.Some? then patch.name else user.name)
  {
    var withEmail := if patch.email.Some? then user.(email := patch.email) else user;
    if patch.name.Some? then withEmail.(name := patch.name) else withEmail
  }

  /** Applying the same patch twice changes nothing more, and a patch without fields
      changes nothing. */
  lemma MergeUserIdempotent(user: User, patch: UserDto)
    ensures MergeUser(MergeUser(user, patch), patch) == MergeUser(user, patch)
    ensures MergeUser(user, patch.(name := None, email := None)) == user
  {
  }

  /** updateUser: NotFound for an unknown id, nothing changed; otherwise the stored user
      is changed in place by the merge rule and every other row stays as it was. */
  method UpdateUser(db: Database, id: Id, dto: UserDto) returns (r: Result<UserDto>)
    requires db.Valid()
    modifies db
    ensures db.Valid()
    ensures id !in old(db.users) ==> r == Err(NotFound(UserEntity, id)) && unchanged(db)
    ensures id in old(db.users) ==>
              var updated := MergeUser(old(db.users)[id], dto);
              && db.Snapshot() == old(db.Snapshot()).(users := old(db.users)[id := updated])
              && r == Ok(ToUserDto(updated))
              && GetUser(db.Snapshot(), id) == r
  {
    if id !in db.users {
      return Err(NotFound(UserEntity, id));
    }
    var updating := db.users[id];
    if dto.email.Some? {
      updating := updating.(email := dto.email);
    }
    if dto.name.Some? {
      updating := updating.(name := dto.name);
    }
    db.users := db.users[id := updating];
    r := Ok(ToUserDto(updating));
  }

  /** deleteUser: removes the row if there is one; an unknown id is not an error. */
  method DeleteUser(db: Database, id: Id)
    requires db.Valid()
    modifies db
    ensures db.Valid()
    ensures db.Snapshot() == old(db.Snapshot()).(users := old(db.users) - {id})
    ensures GetUser(db.Snapshot(), id) == Err(NotFound(UserEntity, id))
  {
    db.users := db.users - {id};
  }
}
