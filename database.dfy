/** The document store the handlers talk to: the `users` and `notes`
    collections, the ticket counter of the Note model's auto-increment
    plugin, and the Mongoose calls the handlers make (`findById`,
    `findOne`, `create`, `save`, `deleteOne`). */
module Database {
  import opened Wrappers
  import opened Js
  import opened Tables
  import opened NoteModel
  import opened UserModel

  /** No two users share a username. */
  ghost predicate UsernamesUnique(users: map<Id, User>) {
    forall a, b | a in users && b in users && a != b :: users[a].username != users[b].username
  }

  /** No two notes share a title. */
  ghost predicate TitlesUnique(notes: map<Id, Note>) {
    forall a, b | a in notes && b in notes && a != b :: notes[a].title != notes[b].title
  }

  /** The invariant of the users collection: `order` indexes it and
      usernames are unique. */
  ghost predicate UsersValid(users: map<Id, User>, order: seq<Id>) {
    Indexes(order, users) && UsernamesUnique(users)
  }

  /** The invariant of the notes collection: `order` indexes it, titles are
      unique, every note passed the schema's validation, and the counter is
      `TicketOf` the number of notes created, above every ticket handed
      out, with tickets ascending in natural order. */
  ghost predicate NotesValid(notes: map<Id, Note>, order: seq<Id>, nextTicket: int, created: nat) {
    && Indexes(order, notes)
    && TitlesUnique(notes)
    && (forall k | k in notes :: Conforms(notes[k]))
    && nextTicket == TicketOf(created)
    && (forall k | k in notes :: TicketStart <= notes[k].ticketNum < nextTicket)
    && TicketsAscend(order, notes)
  }

  /** `ref` is the id of a record stored in `table`. */
  predicate Resolves<R>(ref: Value, table: map<Id, R>) {
    ref.Str? && ref.s in table
  }

  /** Every note's owner reference names a stored user. */
  ghost predicate OwnersResolveIn(notes: map<Id, Note>, users: map<Id, User>) {
    forall k | k in notes :: Resolves(notes[k].user, users)
  }

  /** After a note is added, all owners resolve exactly when they did
      before and the new note's owner does too. */
  lemma InsertNoteOwners(notes: map<Id, Note>, users: map<Id, User>, id: Id, n: Note)
    requires id !in notes
    ensures OwnersResolveIn(notes[id := n], users) <==> OwnersResolveIn(notes, users) && Resolves(n.user, users)
  {
    var m := notes[id := n];
    if OwnersResolveIn(m, users) {
      assert id in m && m[id] == n;
      forall k | k in notes
        ensures Resolves(notes[k].user, users)
      {
        assert k in m && m[k] == notes[k];
      }
    }
    if OwnersResolveIn(notes, users) && Resolves(n.user, users) {
      forall k | k in m
        ensures Resolves(m[k].user, users)
      {
        if k != id {
          assert m[k] == notes[k];
        }
      }
    }
  }

  /** After a note is rewritten in a store where all owners resolved, they
      still all resolve exactly when the rewritten note's owner does. */
  lemma SaveNoteOwners(notes: map<Id, Note>, users: map<Id, User>, id: Id, n: Note)
    requires id in notes
    requires OwnersResolveIn(notes, users)
    ensures OwnersResolveIn(notes[id := n], users) <==> Resolves(n.user, users)
  {
    var m := notes[id := n];
    assert id in m && m[id] == n;
    if Resolves(n.user, users) {
      forall k | k in m
        ensures Resolves(m[k].user, users)
      {
        if k != id {
          assert m[k] == notes[k];
        }
      }
    }
  }

  /** Removing a user that no note names keeps every owner resolving. */
  lemma RemoveUserOwners(notes: map<Id, Note>, users: map<Id, User>, id: Id)
    requires OwnersResolveIn(notes, users)
    requires forall k | k in notes :: notes[k].user != Str(id)
    ensures OwnersResolveIn(notes, users - {id})
  {
  }

  /** A user with an unused username, stored under a fresh id, keeps the
      users invariant. */
  lemma InsertKeepsUsersValid(users: map<Id, User>, order: seq<Id>, id: Id, u: User)
    requires UsersValid(users, order)
    requires id !in users
    requires forall k | k in users :: users[k].username != u.username
    ensures UsersValid(users[id := u], order + [id])
  {
    AppendIndexes(order, users, id, u);
  }

  /** Rewriting a user with a username no other user has keeps the users
      invariant. */
  lemma SaveKeepsUsersValid(users: map<Id, User>, order: seq<Id>, id: Id, u: User)
    requires UsersValid(users, order)
    requires id in users
    requires forall k | k in users && k != id :: users[k].username != u.username
    ensures UsersValid(users[id := u], order)
  {
  }

  lemma RemoveKeepsUsersValid(users: map<Id, User>, order: seq<Id>, id: Id)
    requires UsersValid(users, order)
    requires id in users
    ensures UsersValid(users - {id}, Without(order, id))
  {
    WithoutIndexes(order, users, id);
  }

  /** A new note with an unused title and the counter's ticket, stored under
      a fresh id while the counter advances, keeps the notes invariant. */
  lemma InsertKeepsNotesValid(notes: map<Id, Note>, order: seq<Id>, nextTicket: int, created: nat, id: Id, n: Note)
    requires NotesValid(notes, order, nextTicket, created)
    requires id !in notes
    requires Conforms(n) && n.ticketNum == nextTicket
    requires forall k | k in notes :: notes[k].title != n.title
    ensures NotesValid(notes[id := n], order + [id], nextTicket + TicketStep, created + 1)
  {
    AppendIndexes(order, notes, id, n);
    AppendKeepsTicketsAscending(order, notes, id, n);
  }

  /** Rewriting a note, keeping its ticket, with a title no other note has
      keeps the notes invariant. */
  lemma SaveKeepsNotesValid(notes: map<Id, Note>, order: seq<Id>, nextTicket: int, created: nat, id: Id, n: Note)
    requires NotesValid(notes, order, nextTicket, created)
    requires id in notes
    requires Conforms(n) && n.ticketNum == notes[id].ticketNum
    requires forall k | k in notes && k != id :: notes[k].title != n.title
    ensures NotesValid(notes[id := n], order, nextTicket, created)
  {
    SaveKeepsTicketsAscending(order, notes, id, n);
  }

  lemma RemoveKeepsNotesValid(notes: map<Id, Note>, order: seq<Id>, nextTicket: int, created: nat, id: Id)
    requires NotesValid(notes, order, nextTicket, created)
    requires id in notes
    ensures NotesValid(notes - {id}, Without(order, id), nextTicket, created)
  {
    WithoutKeepsTicketsAscending(order, notes, id);
  }

  class Store {
    var users: map<Id, User>
    var userOrder: seq<Id>
    var notes: map<Id, Note>
    var noteOrder: seq<Id>
    /** The plugin's counter: the ticket number of the next note created. */
    var nextTicket: int
    /** How many notes were ever created, deleted ones included. */
    ghost var notesCreated: nat
    /** `bcrypt.hash(plaintext, rounds)` on a string plaintext, an
        uninterpreted one-way function. */
    const hash: (string, nat) -> Digest

    /** The store's invariant, kept by every handler. Owner references are
        deliberately not part of it (see `OwnersResolve`). */
    ghost predicate Valid()
      reads this
    {
      UsersValid(users, userOrder) && NotesValid(notes, noteOrder, nextTicket, notesCreated)
    }

    /** An empty database whose passwords are hashed by `hash`. */
    constructor (hash: (string, nat) -> Digest)
      ensures Valid()
      ensures users == map[] && userOrder == [] && notes == map[] && noteOrder == []
      ensures nextTicket == TicketStart && notesCreated == 0
      ensures this.hash == hash
    {
      users, userOrder := map[], [];
      notes, noteOrder := map[], [];
      nextTicket := TicketStart;
      notesCreated := 0;
      this.hash := hash;
    }

    // ---- queries

    /** Some user is stored under the id `v` denotes. */
    predicate HasUser(v: Value)
      reads this
    {
      Resolves(v, users)
    }

    /** Some note is stored under the id `v` denotes. */
    predicate HasNote(v: Value)
      reads this
    {
      Resolves(v, notes)
    }

    ghost predicate UsernameTaken(name: Value)
      reads this
    {
      exists k | k in users :: users[k].username == name
    }

    ghost predicate TitleTaken(title: Value)
      reads this
    {
      exists k | k in notes :: notes[k].title == title
    }

    /** Some note names `v` as its owner (`Note.findOne({ user: v })`). */
    ghost predicate HasNotesOf(v: Value)
      reads this
    {
      exists k | k in notes :: notes[k].user == v
    }

    /** Every note's owner reference names a stored user. */
    ghost predicate OwnersResolve()
      reads this
    {
      OwnersResolveIn(notes, users)
    }

    /** `User.findById(v)`. */
    function FindUserById(v: Value): (r: Option<Id>)
      reads this
      ensures r.Some? ==> r.value in users && v == Str(r.value)
      ensures r.None? <==> !HasUser(v)
    {
      if v.Str? && v.s in users then Some(v.s) else None
    }

    /** `Note.findById(v)`. */
    function FindNoteById(v: Value): (r: Option<Id>)
      reads this
      ensures r.Some? ==> r.value in notes && v == Str(r.value)
      ensures r.None? <==> !HasNote(v)
    {
      if v.Str? && v.s in notes then Some(v.s) else None
    }

    /** `User.findOne({ username: name })`. */
    function FindUserByName(name: Value): (r: Option<Id>)
      reads this
      requires Valid()
      ensures r.Some? ==> r.value in users && users[r.value].username == name
      ensures r.None? <==> !UsernameTaken(name)
    {
      var p := (u: User) => u.username == name;
      match FindFirst(users, userOrder, p)
      case Some(i) => Some(userOrder[i])
      case None => NothingFound(users, userOrder, p); None
    }

    /** `Note.findOne({ title })`. */
    function FindNoteByTitle(title: Value): (r: Option<Id>)
      reads this
      requires Valid()
      ensures r.Some? ==> r.value in notes && notes[r.value].title == title
      ensures r.None? <==> !TitleTaken(title)
    {
      var p := (n: Note) => n.title == title;
      match FindFirst(notes, noteOrder, p)
      case Some(i) => Some(noteOrder[i])
      case None => NothingFound(notes, noteOrder, p); None
    }

    /** `Note.findOne({ user: v })`. */
    function FindNoteByOwner(v: Value): (r: Option<Id>)
      reads this
      requires Valid()
      ensures r.Some? ==> r.value in notes && notes[r.value].user == v
      ensures r.None? <==> !HasNotesOf(v)
    {
      var p := (n: Note) => n.user == v;
      match FindFirst(notes, noteOrder, p)
      case Some(i) => Some(noteOrder[i])
      case None => NothingFound(notes, noteOrder, p); None
    }

    // ---- writes. The store itself checks nothing; the requires clauses
    // beyond the key tests are what keeps `Valid`, and each handler
    // establishes them by its own lookups before it writes.

    /** `User.create(u)` under the fresh id `id`. */
    method InsertUser(id: Id, u: User)
      requires Valid()
      requires id !in users
      requires forall k | k in users :: users[k].username != u.username
      modifies this`users, this`userOrder
      ensures Valid()
      ensures users == old(users)[id := u]
      ensures userOrder == old(userOrder) + [id]
      ensures old(OwnersResolve()) ==> OwnersResolve()
    {
      InsertKeepsUsersValid(users, userOrder, id, u);
      users := users[id := u];
      userOrder := userOrder + [id];
    }

    /** `user.save()` of the document fetched under `id`. */
    method SaveUser(id: Id, u: User)
      requires Valid()
      requires id in users
      requires forall k | k in users && k != id :: users[k].username != u.username
      modifies this`users
      ensures Valid()
      ensures users == old(users)[id := u]
      ensures old(OwnersResolve()) ==> OwnersResolve()
    {
      SaveKeepsUsersValid(users, userOrder, id, u);
      users := users[id := u];
    }

    /** `user.deleteOne()`. Owners still all resolve afterwards when no note
        named the removed user. */
    method RemoveUser(id: Id)
      requires Valid()
      requires id in users
      modifies this`users, this`userOrder
      ensures Valid()
      ensures users == old(users) - {id}
      ensures userOrder == Without(old(userOrder), id)
      ensures old(OwnersResolve()) && !old(HasNotesOf(Str(id))) ==> OwnersResolve()
    {
      RemoveKeepsUsersValid(users, userOrder, id);
      if OwnersResolve() && !HasNotesOf(Str(id)) {
        RemoveUserOwners(notes, users, id);
      }
      users := users - {id};
      userOrder := Without(userOrder, id);
    }

    /** `Note.create({ user, title, text })` under the fresh id `id`: the
        schema validates the document and gives `completed` its default;
        the plugin stamps it with the counter and advances the counter by
        one. A refused document changes nothing. */
    method InsertNote(id: Id, user: Value, title: Value, text: Value) returns (ok: bool)
      requires Valid()
      requires id !in notes
      requires forall k | k in notes :: notes[k].title != title
      modifies this`notes, this`noteOrder, this`nextTicket, this`notesCreated
      ensures Valid()
      ensures ok <==> Create(user, title, text, None, old(nextTicket)).Some?
      ensures ok ==> notes == old(notes)[id := Create(user, title, text, None, old(nextTicket)).value]
      ensures ok ==> noteOrder == old(noteOrder) + [id]
      ensures ok ==> nextTicket == old(nextTicket) + TicketStep && notesCreated == old(notesCreated) + 1
      ensures ok ==> (OwnersResolve() <==> old(OwnersResolve()) && Resolves(user, users))
      ensures !ok ==> unchanged(this)
    {
      var doc := Create(user, title, text, None, nextTicket);
      if doc.None? {
        return false;
      }
      InsertKeepsNotesValid(notes, noteOrder, nextTicket, notesCreated, id, doc.value);
      InsertNoteOwners(notes, users, id, doc.value);
      notes := notes[id := doc.value];
      noteOrder := noteOrder + [id];
      nextTicket := nextTicket + TicketStep;
      notesCreated := notesCreated + 1;
      ok := true;
    }

    /** `note.save()` of the document fetched under `id`, its ticket kept. */
    method SaveNote(id: Id, n: Note)
      requires Valid()
      requires id in notes
      requires Conforms(n) && n.ticketNum == notes[id].ticketNum
      requires forall k | k in notes && k != id :: notes[k].title != n.title
      modifies this`notes
      ensures Valid()
      ensures notes == old(notes)[id := n]
      ensures old(OwnersResolve()) ==> (OwnersResolve() <==> Resolves(n.user, users))
    {
      SaveKeepsNotesValid(notes, noteOrder, nextTicket, notesCreated, id, n);
      if OwnersResolve() {
        SaveNoteOwners(notes, users, id, n);
      }
      notes := notes[id := n];
    }

    /** `note.deleteOne()`. */
    method RemoveNote(id: Id)
      requires Valid()
      requires id in notes
      modifies this`notes, this`noteOrder
      ensures Valid()
      ensures notes == old(notes) - {id}
      ensures noteOrder == Without(old(noteOrder), id)
      ensures old(OwnersResolve()) ==> OwnersResolve()
    {
      RemoveKeepsNotesValid(notes, noteOrder, nextTicket, notesCreated, id);
      notes := notes - {id};
      noteOrder := Without(noteOrder, id);
    }
  }
}
