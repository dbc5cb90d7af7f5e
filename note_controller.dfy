/** The note handlers: list (joined with each owner's username), create,
    update and delete. None of them checks that a note's `user` names a
    stored user, so the list handler can meet a note whose owner is gone. */
module NoteController {
  import opened Wrappers
  import opened Js
  import opened Tables
  import opened NoteModel
  import opened UserModel
  import opened Replies
  import opened Database

  /** The body test of the create handler: truthy `user`, `title`, `text`. */
  predicate CreateFieldsPresent(body: Body) {
    && Truthy(Field(body, "user"))
    && Truthy(Field(body, "title"))
    && Truthy(Field(body, "text"))
  }

  /** The body test of the update handler: truthy `id`, `user`, `title` and
      `text`, and `completed` strictly a boolean. */
  predicate UpdateFieldsPresent(body: Body) {
    && Truthy(Field(body, "id"))
    && Truthy(Field(body, "user"))
    && Truthy(Field(body, "title"))
    && Truthy(Field(body, "text"))
    && IsBoolean(Field(body, "completed"))
  }

  /** `User.findById(note.user)`: the owner, or `None` where the source
      gets `null`. */
  function OwnerOf(n: Note, users: map<Id, User>): (r: Option<User>)
    ensures r.Some? <==> Resolves(n.user, users)
    ensures r.Some? ==> r.value == users[n.user.s]
  {
    if Resolves(n.user, users) then Some(users[n.user.s]) else None
  }

  /** The per-note join of the list handler. Each note becomes its view with
      the owner's username, in the notes' own order. Reading `username` off
      a missing owner throws, which rejects the whole `Promise.all`. So
      there is a list exactly when every owner resolves, and never a
      partial one. */
  function JoinOwners(order: seq<Id>, notes: map<Id, Note>, users: map<Id, User>): (r: Option<seq<NoteView>>)
    requires forall i | 0 <= i < |order| :: order[i] in notes
    ensures r.Some? <==> forall i | 0 <= i < |order| :: OwnerOf(notes[order[i]], users).Some?
    ensures r.Some? ==> |r.value| == |order|
    ensures r.Some? ==> forall i | 0 <= i < |order| ::
      r.value[i] == NoteView(order[i], notes[order[i]], OwnerOf(notes[order[i]], users).value.username)
  {
    if order == [] then Some([])
    else
      match OwnerOf(notes[order[0]], users)
      case None => None
      case Some(owner) =>
        match JoinOwners(order[1..], notes, users)
        case None => None
        case Some(rest) => Some([NoteView(order[0], notes[order[0]], owner.username)] + rest)
  }

  /** Over an index of the whole table, every position's owner resolves
      exactly when every note's owner does. */
  lemma {:induction false} OwnersResolveAlongOrder(order: seq<Id>, notes: map<Id, Note>, users: map<Id, User>)
    requires Indexes(order, notes)
    ensures (forall i | 0 <= i < |order| :: OwnerOf(notes[order[i]], users).Some?)
        <==> (forall k | k in notes :: OwnerOf(notes[k], users).Some?)
  {
    if forall i | 0 <= i < |order| :: OwnerOf(notes[order[i]], users).Some? {
      forall k | k in notes
        ensures OwnerOf(notes[k], users).Some?
      {
        var i :| 0 <= i < |order| && order[i] == k;
      }
    }
  }

  /** GET /notes: 404 on an empty table; a server error when some note's
      owner is missing; otherwise every note in natural order, each with
      its owner's username. */
  function GetAllNotes(db: Store): (r: Response)
    reads db
    requires db.Valid()
    ensures r.status == NotFound <==> db.notes == map[]
    ensures db.notes == map[] ==> r == Reply(NotFound, NoNotesFound)
    ensures db.notes != map[] && !db.OwnersResolve() ==> r == Reply(ServerError, InternalError)
    ensures db.notes != map[] && db.OwnersResolve() ==>
      && r.status == Ok && r.payload.NoteList?
      && |r.payload.notes| == |db.noteOrder|
      && forall i | 0 <= i < |db.noteOrder| ::
           var n := db.notes[db.noteOrder[i]];
           r.payload.notes[i] == NoteView(db.noteOrder[i], n, db.users[n.user.s].username)
  {
    IndexesEmpty(db.noteOrder, db.notes);
    OwnersResolveAlongOrder(db.noteOrder, db.notes, db.users);
    if |db.noteOrder| == 0 then
      Reply(NotFound, NoNotesFound)
    else
      match JoinOwners(db.noteOrder, db.notes, db.users)
      case None => Reply(ServerError, InternalError)
      case Some(views) => Response(Ok, NoteList(views))
  }

  /** POST /notes. `newId` is the id the store assigns to the new document.
      The owner reference is stored without any check that it exists. */
  method CreateNewNote(db: Store, body: Body, newId: Id) returns (resp: Response)
    requires db.Valid()
    requires newId !in db.notes
    modifies db`notes, db`noteOrder, db`nextTicket, db`notesCreated
    ensures db.Valid()
    ensures !CreateFieldsPresent(body) ==>
      resp == Reply(BadRequest, AllFieldsRequired) && unchanged(db)
    ensures CreateFieldsPresent(body) && old(db.TitleTaken(Field(body, "title"))) ==>
      resp == Reply(Conflict, TitleExists) && unchanged(db)
    ensures CreateFieldsPresent(body) && !old(db.TitleTaken(Field(body, "title"))) ==>
      && resp == Reply(Created, NoteCreated(Field(body, "title")))
      && db.notes == old(db.notes)[newId :=
           Note(Field(body, "user"), Field(body, "title"), Field(body, "text"), false, TicketOf(old(db.notesCreated)))]
      && db.noteOrder == old(db.noteOrder) + [newId]
      && db.notesCreated == old(db.notesCreated) + 1
    ensures resp.status == Created ==>
      (db.OwnersResolve() <==> old(db.OwnersResolve()) && db.HasUser(Field(body, "user")))
  {
    var user, title, text := Field(body, "user"), Field(body, "title"), Field(body, "text");
    if !CreateFieldsPresent(body) {
      return Reply(BadRequest, AllFieldsRequired);
    }
    var duplicate := db.FindNoteByTitle(title);
    if duplicate.Some? {
      return Reply(Conflict, TitleExists);
    }
    TruthyIsRequired(user);
    TruthyIsRequired(title);
    TruthyIsRequired(text);
    var ok := db.InsertNote(newId, user, title, text);
    // `Note.create` resolves to the stored document, so the 400 reply the
    // handler keeps for a falsy result is never sent.
    assert ok;
    resp := Reply(Created, NoteCreated(title));
  }

  /** PATCH /notes. */
  method UpdateNote(db: Store, body: Body) returns (resp: Response)
    requires db.Valid()
    modifies db`notes
    ensures db.Valid()
    ensures !UpdateFieldsPresent(body) ==>
      resp == Reply(BadRequest, AllFieldsRequired) && unchanged(db)
    ensures UpdateFieldsPresent(body) && !old(db.HasNote(Field(body, "id"))) ==>
      resp == Reply(BadRequest, NoteNotFound) && unchanged(db)
    ensures UpdateFieldsPresent(body) && old(db.HasNote(Field(body, "id"))) ==>
      var id, title := Field(body, "id").s, Field(body, "title");
      var other := exists k | k in old(db.notes) && k != id :: old(db.notes)[k].title == title;
      && (other ==> resp == Reply(Conflict, DuplicateTitle) && unchanged(db))
      && (!other ==>
            && resp == Reply(Ok, NoteUpdated(title))
            && db.notes == old(db.notes)[id := Note(Field(body, "user"), title, Field(body, "text"),
                                                    Field(body, "completed").b, old(db.notes)[id].ticketNum)])
    ensures resp.status == Ok && old(db.OwnersResolve()) ==>
      (db.OwnersResolve() <==> db.HasUser(Field(body, "user")))
  {
    var idField, user, title, text, completed :=
      Field(body, "id"), Field(body, "user"), Field(body, "title"), Field(body, "text"), Field(body, "completed");
    if !UpdateFieldsPresent(body) {
      return Reply(BadRequest, AllFieldsRequired);
    }
    var found := db.FindNoteById(idField);
    if found.None? {
      return Reply(BadRequest, NoteNotFound);
    }
    var id := found.value;
    var duplicate := db.FindNoteByTitle(title);
    if duplicate.Some? && Str(duplicate.value) != idField {
      return Reply(Conflict, DuplicateTitle);
    }
    var note := db.notes[id].(user := user, title := title, text := text, completed := completed.b);
    TruthyIsRequired(user);
    TruthyIsRequired(title);
    TruthyIsRequired(text);
    assert Conforms(note);
    assert forall k | k in db.notes && k != id :: db.notes[k].title != title;
    db.SaveNote(id, note);
    resp := Reply(Ok, NoteUpdated(note.title));
  }

  /** DELETE /notes. The ticket counter is left alone, so a deleted note's
      ticket number is never handed out again. */
  method DeleteNote(db: Store, body: Body) returns (resp: Response)
    requires db.Valid()
    modifies db`notes, db`noteOrder
    ensures db.Valid()
    ensures !Truthy(Field(body, "id")) ==>
      resp == Reply(BadRequest, NoteIdRequired) && unchanged(db)
    ensures Truthy(Field(body, "id")) && !old(db.HasNote(Field(body, "id"))) ==>
      resp == Reply(BadRequest, NoteNotFound) && unchanged(db)
    ensures Truthy(Field(body, "id")) && old(db.HasNote(Field(body, "id"))) ==>
      var id := Field(body, "id").s;
      && resp == Reply(Ok, NoteDeleted(old(db.notes[id].title), id))
      && db.notes == old(db.notes) - {id}
      && db.noteOrder == Without(old(db.noteOrder), id)
    ensures old(db.OwnersResolve()) ==> db.OwnersResolve()
  {
    var idField := Field(body, "id");
    if !Truthy(idField) {
      return Reply(BadRequest, NoteIdRequired);
    }
    var found := db.FindNoteById(idField);
    if found.None? {
      return Reply(BadRequest, NoteNotFound);
    }
    var id := found.value;
    var result := db.notes[id];
    db.RemoveNote(id);
    resp := Reply(Ok, NoteDeleted(result.title, id));
  }
}
