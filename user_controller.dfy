/** The user handlers: list, create, update and delete, each a transition of
    the store that validates the body, runs its lookups in the handler's
    fixed order, and then writes or refuses. */
module UserController {
  import opened Wrappers
  import opened Js
  import opened Tables
  import opened UserModel
  import opened Replies
  import opened Database

  /** The body test of the create handler: a truthy `username` and
      `password`, and `roles` a non-empty array. */
  predicate CreateFieldsPresent(body: Body) {
    && Truthy(Field(body, "username"))
    && Truthy(Field(body, "password"))
    && IsNonEmptyArray(Field(body, "roles"))
  }

  /** The body test of the update handler: a truthy `_id` and `username`,
      `roles` a non-empty array and `active` strictly a boolean. */
  predicate UpdateFieldsPresent(body: Body) {
    && Truthy(Field(body, "_id"))
    && Truthy(Field(body, "username"))
    && IsNonEmptyArray(Field(body, "roles"))
    && IsBoolean(Field(body, "active"))
  }

  /** GET /users: 404 on an empty table; otherwise every user, in natural
      order, with everything but the password hash. */
  function GetAllUsers(db: Store): (r: Response)
    reads db
    requires db.Valid()
    ensures r.status == NotFound <==> db.users == map[]
    ensures db.users == map[] ==> r == Reply(NotFound, NoUsersFound)
    ensures db.users != map[] ==>
      && r.status == Ok && r.payload.UserList?
      && |r.payload.users| == |db.userOrder|
      && forall i | 0 <= i < |db.userOrder| ::
           && r.payload.users[i].id == db.userOrder[i]
           && WithPassword(r.payload.users[i], db.users[db.userOrder[i]].password) == db.users[db.userOrder[i]]
  {
    IndexesEmpty(db.userOrder, db.users);
    if |db.userOrder| == 0 then
      Reply(NotFound, NoUsersFound)
    else
      var table, order := db.users, db.userOrder;
      Response(Ok, UserList(seq(|order|, i requires 0 <= i < |order| && order[i] in table =>
        Conceal(order[i], table[order[i]]))))
  }

  /** POST /users. `newId` is the id the store assigns to the new document.
      A password bcrypt cannot hash rejects the handler before anything is
      stored, and the error middleware replies. */
  method CreateNewUser(db: Store, body: Body, newId: Id) returns (resp: Response)
    requires db.Valid()
    requires newId !in db.users
    modifies db`users, db`userOrder
    ensures db.Valid()
    ensures !CreateFieldsPresent(body) ==>
      resp == Reply(BadRequest, AllFieldsRequired) && unchanged(db)
    ensures CreateFieldsPresent(body) && old(db.UsernameTaken(Field(body, "username"))) ==>
      resp == Reply(Conflict, UsernameExists) && unchanged(db)
    ensures CreateFieldsPresent(body) && !old(db.UsernameTaken(Field(body, "username")))
            && !Hashable(Field(body, "password")) ==>
      resp == Reply(ServerError, InternalError) && unchanged(db)
    ensures CreateFieldsPresent(body) && !old(db.UsernameTaken(Field(body, "username")))
            && Hashable(Field(body, "password")) ==>
      && resp == Reply(Created, UserCreated(Field(body, "username")))
      && newId in db.users
      && db.users == old(db.users)[newId := db.users[newId]]
      && db.users[newId].username == Field(body, "username")
      && db.users[newId].password == db.hash(Field(body, "password").s, SaltRounds)
      && db.users[newId].roles == Field(body, "roles").items
      && db.users[newId].active.None?
      && db.userOrder == old(db.userOrder) + [newId]
    ensures old(db.OwnersResolve()) ==> db.OwnersResolve()
  {
    var username, password, roles := Field(body, "username"), Field(body, "password"), Field(body, "roles");
    if !CreateFieldsPresent(body) {
      return Reply(BadRequest, AllFieldsRequired);
    }
    var duplicate := db.FindUserByName(username);
    if duplicate.Some? {
      return Reply(Conflict, UsernameExists);
    }
    if !Hashable(password) {
      return Reply(ServerError, InternalError);
    }
    var hashedPwd := db.hash(password.s, SaltRounds);
    db.InsertUser(newId, User(username, hashedPwd, roles.items, None));
    resp := Reply(Created, UserCreated(username));
  }

  /** PATCH /users. A truthy password that bcrypt cannot hash rejects the
      handler before `save`, so nothing is stored. */
  method UpdateUser(db: Store, body: Body) returns (resp: Response)
    requires db.Valid()
    modifies db`users
    ensures db.Valid()
    ensures !UpdateFieldsPresent(body) ==>
      resp == Reply(BadRequest, AllFieldsRequired) && unchanged(db)
    ensures UpdateFieldsPresent(body) && !old(db.HasUser(Field(body, "_id"))) ==>
      resp == Reply(BadRequest, UserNotFound) && unchanged(db)
    ensures UpdateFieldsPresent(body) && old(db.HasUser(Field(body, "_id"))) ==>
      var id, username := Field(body, "_id").s, Field(body, "username");
      var other := exists k | k in old(db.users) && k != id :: old(db.users)[k].username == username;
      var password := Field(body, "password");
      && (other ==> resp == Reply(Conflict, DuplicateUsername) && unchanged(db))
      && (!other && Truthy(password) && !Hashable(password) ==>
            resp == Reply(ServerError, InternalError) && unchanged(db))
      && (!other && (Truthy(password) ==> Hashable(password)) ==>
            && resp == Reply(Ok, UserUpdated(username))
            && id in db.users
            && db.users == old(db.users)[id := db.users[id]]
            && db.users[id].username == username
            && db.users[id].roles == Field(body, "roles").items
            && db.users[id].active == Some(Field(body, "active").b)
            && db.users[id].password ==
                 (if Truthy(password) then db.hash(password.s, SaltRounds)
                  else old(db.users[id].password)))
    ensures old(db.OwnersResolve()) ==> db.OwnersResolve()
  {
    var idField, username, roles, active, password :=
      Field(body, "_id"), Field(body, "username"), Field(body, "roles"), Field(body, "active"), Field(body, "password");
    if !UpdateFieldsPresent(body) {
      return Reply(BadRequest, AllFieldsRequired);
    }
    var found := db.FindUserById(idField);
    if found.None? {
      return Reply(BadRequest, UserNotFound);
    }
    var id := found.value;
    var duplicate := db.FindUserByName(username);
    if duplicate.Some? && Str(duplicate.value) != idField {
      return Reply(Conflict, DuplicateUsername);
    }
    assert forall k | k in db.users && k != id :: db.users[k].username != username;
    var user := db.users[id];
    user := user.(username := username);
    user := user.(roles := roles.items);
    user := user.(active := Some(active.b));
    if Truthy(password) {
      if !Hashable(password) {
        return Reply(ServerError, InternalError);
      }
      user := user.(password := db.hash(password.s, SaltRounds));
    }
    db.SaveUser(id, user);
    resp := Reply(Ok, UserUpdated(user.username));
  }

  /** DELETE /users. The assigned-notes test runs before the existence test,
      so an unknown id that some note names is refused as having notes. */
  method DeleteUser(db: Store, body: Body) returns (resp: Response)
    requires db.Valid()
    modifies db`users, db`userOrder
    ensures db.Valid()
    ensures !Truthy(Field(body, "_id")) ==>
      resp == Reply(BadRequest, UserIdRequired) && unchanged(db)
    ensures Truthy(Field(body, "_id")) && old(db.HasNotesOf(Field(body, "_id"))) ==>
      resp == Reply(BadRequest, UserHasNotes) && unchanged(db)
    ensures Truthy(Field(body, "_id")) && !old(db.HasNotesOf(Field(body, "_id"))) && !old(db.HasUser(Field(body, "_id"))) ==>
      resp == Reply(BadRequest, UserNotFound) && unchanged(db)
    ensures Truthy(Field(body, "_id")) && !old(db.HasNotesOf(Field(body, "_id"))) && old(db.HasUser(Field(body, "_id"))) ==>
      var id := Field(body, "_id").s;
      && resp == Reply(Ok, UserDeleted(old(db.users[id].username), id))
      && db.users == old(db.users) - {id}
      && db.userOrder == Without(old(db.userOrder), id)
    ensures old(db.OwnersResolve()) ==> db.OwnersResolve()
  {
    var idField := Field(body, "_id");
    if !Truthy(idField) {
      return Reply(BadRequest, UserIdRequired);
    }
    var note := db.FindNoteByOwner(idField);
    if note.Some? {
      return Reply(BadRequest, UserHasNotes);
    }
    var found := db.FindUserById(idField);
    if found.None? {
      return Reply(BadRequest, UserNotFound);
    }
    var id := found.value;
    var result := db.users[id];
    db.RemoveUser(id);
    resp := Reply(Ok, UserDeleted(result.username, id));
  }
}
