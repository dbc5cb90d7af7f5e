/** Request sequences against a fresh database, with the replies and the
    state the handlers' contracts promise for them. */
module Scenarios {
  import opened Js
  import opened NoteModel
  import opened UserModel
  import opened Replies
  import opened Database
  import UserController
  import NoteController

  function AliceSignUp(): Body {
    map["username" := Str("alice"), "password" := Str("pw"), "roles" := Array([Str("Employee")])]
  }

  /** Creating `alice` succeeds once; the same request again is a conflict
      and changes nothing. */
  method SignUpTwice(hash: (string, nat) -> Digest) {
    var db := new Store(hash);
    var r1 := UserController.CreateNewUser(db, AliceSignUp(), "u1");
    assert r1 == Reply(Created, UserCreated(Str("alice")));
    assert db.users["u1"].username == Str("alice");
    var r2 := UserController.CreateNewUser(db, AliceSignUp(), "u2");
    assert r2 == Reply(Conflict, UsernameExists);
    assert db.userOrder == ["u1"];
  }

  /** A note for `alice` takes the first ticket, 500, and is listed open,
      with its owner's username. */
  method FirstNoteIsListed(hash: (string, nat) -> Digest) {
    var db := new Store(hash);
    var _ := UserController.CreateNewUser(db, AliceSignUp(), "u1");
    var body := map["user" := Str("u1"), "title" := Str("Fix printer"), "text" := Str("Jammed")];
    var r := NoteController.CreateNewNote(db, body, "n1");
    assert r == Reply(Created, NoteCreated(Str("Fix printer")));
    assert db.notes["n1"].ticketNum == 500;
    assert db.OwnersResolve() by {
      assert db.notes.Keys == {"n1"};
    }
    var list := NoteController.GetAllNotes(db);
    assert list.status == Ok;
    assert |list.payload.notes| == 1;
    assert list.payload.notes[0] == NoteView("n1", Note(Str("u1"), Str("Fix printer"), Str("Jammed"), false, 500), Str("alice"));
  }

  /** Two notes get consecutive tickets. */
  method TicketsCount(hash: (string, nat) -> Digest) {
    var db := new Store(hash);
    var a := map["user" := Str("u1"), "title" := Str("A"), "text" := Str("x")];
    var b := map["user" := Str("u1"), "title" := Str("B"), "text" := Str("y")];
    var _ := NoteController.CreateNewNote(db, a, "n1");
    assert db.notes["n1"].title == Str("A");
    var _ := NoteController.CreateNewNote(db, b, "n2");
    assert db.notes["n1"].ticketNum == 500 && db.notes["n2"].ticketNum == 501;
  }

  /** `active` must be a real boolean: the string "yes" is refused. */
  method ActiveMustBeBoolean(hash: (string, nat) -> Digest) {
    var db := new Store(hash);
    var _ := UserController.CreateNewUser(db, AliceSignUp(), "u1");
    var body := map["_id" := Str("u1"), "username" := Str("alice"), "roles" := Array([Str("Admin")]),
                    "active" := Str("yes")];
    var r := UserController.UpdateUser(db, body);
    assert r == Reply(BadRequest, AllFieldsRequired);
  }

  /** A note whose owner id names nobody is still created, and from then on
      the list fails with a server error. */
  method DanglingOwner(hash: (string, nat) -> Digest) {
    var db := new Store(hash);
    var body := map["user" := Str("ghost"), "title" := Str("Orphan"), "text" := Str("x")];
    var r := NoteController.CreateNewNote(db, body, "n1");
    assert r.status == Created;
    assert !db.HasUser(Str("ghost"));
    var list := NoteController.GetAllNotes(db);
    assert list == Reply(ServerError, InternalError);
  }

  /** A user who still owns a note cannot be deleted. */
  method OwnerIsKept(hash: (string, nat) -> Digest) {
    var db := new Store(hash);
    var _ := UserController.CreateNewUser(db, AliceSignUp(), "u1");
    var note := map["user" := Str("u1"), "title" := Str("T"), "text" := Str("x")];
    var _ := NoteController.CreateNewNote(db, note, "n1");
    assert db.notes["n1"].user == Str("u1");
    var r := UserController.DeleteUser(db, map["_id" := Str("u1")]);
    assert r == Reply(BadRequest, UserHasNotes);
  }

  /** A user who owns no note is deleted, and the reply names them. */
  method DeleteLoneUser(hash: (string, nat) -> Digest) {
    var db := new Store(hash);
    var _ := UserController.CreateNewUser(db, AliceSignUp(), "u1");
    var r := UserController.DeleteUser(db, map["_id" := Str("u1")]);
    assert r == Reply(Ok, UserDeleted(Str("alice"), "u1"));
    assert db.users == map[] && db.userOrder == [];
  }

  /** Deleting a note keeps the counter, so the next note takes a new
      ticket. */
  method DeletedTicketNotReused(hash: (string, nat) -> Digest) {
    var db := new Store(hash);
    var a := map["user" := Str("u1"), "title" := Str("A"), "text" := Str("x")];
    var _ := NoteController.CreateNewNote(db, a, "n1");
    var r := NoteController.DeleteNote(db, map["id" := Str("n1")]);
    assert r == Reply(Ok, NoteDeleted(Str("A"), "n1"));
    var _ := NoteController.CreateNewNote(db, a, "n2");
    assert db.notes["n2"].ticketNum == 501;
  }

  /** A numeric password passes the handler's truthiness test but bcrypt
      rejects it: the reply is a server error and no user is stored. */
  method NumericPasswordRefused(hash: (string, nat) -> Digest) {
    var db := new Store(hash);
    var body := map["username" := Str("bob"), "password" := Number(1234.0), "roles" := Array([Str("Employee")])];
    var r := UserController.CreateNewUser(db, body, "u1");
    assert r == Reply(ServerError, InternalError);
    assert db.users == map[];
  }
}
