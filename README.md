# techNotes request handlers in Dafny

This project models the back end of techNotes, a note and ticket tracker. Its
REST handlers work over two MongoDB collections, `users` and `notes`. The model
treats every handler as a transition of a small database:

- `Database.Store` is a class that holds the two tables as maps from ids to
  records.
- Each table has a sequence of its ids in insertion order. The model takes this
  as the order in which `find()` and `findOne()` meet the documents (see
  "## Left out").
- The store also holds the ticket counter of the Note model's auto-increment
  plugin, and a ghost count of the notes ever created.
- The Mongoose calls the handlers make (`findById`, `findOne`, `create`,
  `save`, `deleteOne`) are the store's functions and methods.

A handler is a method that takes a request body and returns a `Response`, which
is a status code and a payload:

- A body is a map from field names to JavaScript values (`Js.Value`).
  `Js.Field` reads one field the way `const { x } = req.body` does: a field
  the body lacks is `undefined`.
- The handlers' tests `!x`, `Array.isArray(x) && x.length` and
  `typeof x === 'boolean'` are the predicates `Truthy`, `IsNonEmptyArray` and
  `IsBoolean`.
- A message payload is a tag that names the reply, not its wording.

The list handlers are functions over the store. The other six handlers are
methods with field-granular `modifies` clauses. Each one:

- keeps the store invariant `Valid()`;
- states its reply and its new state for every branch, in the order the
  handler tests them.

`Valid()` says:

- each order indexes its table exactly;
- usernames are unique and titles are unique;
- every stored note passed the schema's checks;
- the counter equals `TicketOf(created)`;
- tickets lie in `[500, nextTicket)` and rise in natural order.

The store does not enforce that every note's owner reference names a stored
user, and neither does the model's invariant. That property is
`OwnersResolve()`, and the handlers state how they affect it:

- creating or updating a note can break it;
- deleting a user never breaks it, because the handler refuses to delete a
  user that some note names;
- while it is broken, listing the notes fails with a server error.

Two behaviours of the code are kept as written:

- When an owner is missing, the list handler reads `username` off `null`. That
  throws, the whole `Promise.all` rejects, and the error middleware replies.
  The model returns status 500. It does not return a list with the username
  left empty.
- A user's `active` flag is not set at creation. It stays unset (`None`) until
  the first update.

`scenarios.dfy` proves the replies and states of short request sequences
against a fresh database. Among them: signing up twice, the first tickets 500
and 501, a non-boolean `active`, a numeric password, a note with an unknown
owner followed by a failed list, and deleting a user who still owns a note.

## Model

| member | source | states |
|---|---|---|
| Js.Field | controllers/userController.js:21 | destructuring a body field: its value when the body carries it, otherwise `undefined`, which is falsy |
| Js.Truthy | controllers/userController.js:24 | JavaScript truthiness, the meaning of the handlers' `!x` tests: `undefined`, `null`, `false`, `0`, `""` are falsy, everything else truthy |
| Js.IsNonEmptyArray | controllers/userController.js:24 | `Array.isArray(roles) && roles.length`: an array with at least one element |
| Js.IsBoolean | controllers/userController.js:57 | `typeof active === 'boolean'`: strictly a boolean value |
| UserController.CreateFieldsPresent | controllers/userController.js:24 | the create body test: truthy username and password, roles a non-empty array |
| UserController.UpdateFieldsPresent | controllers/userController.js:57 | the update body test: truthy `_id` and username, roles a non-empty array, active a boolean |
| NoteController.CreateFieldsPresent | controllers/noteController.js:30 | the create body test: truthy user, title and text |
| NoteController.UpdateFieldsPresent | controllers/noteController.js:60 | the update body test: truthy id, user, title and text, completed a boolean |
| UserModel.Hashable | controllers/userController.js:36 | the plaintexts `bcrypt.hash` accepts: strings |
| NoteModel.Required | models/Note.js:5-18 | the schema's `required: true`: not missing, not null, not the empty string |
| NoteModel.Conforms | models/Note.js:5-18 | a note whose user, title and text all pass `required` |
| Database.Store.Valid | models/Note.js:29-34 | the store invariant: exact order indexes, unique usernames and titles, conforming notes, the counter at `TicketOf(created)` and tickets rising below it |
| Tables.FindFirst | controllers/userController.js:29 | `findOne`: the first record in natural order that satisfies the filter; nothing earlier satisfies it; None means no record in the order does |
| Tables.NothingFound | controllers/noteController.js:35 | when the order indexes the whole table, a `findOne` that finds nothing means no record of the table matches |
| Tables.IndexOf | controllers/noteController.js:107 | the position of a stored id in natural order, and no earlier position holds it |
| Tables.Without | controllers/userController.js:109 | the natural order after `deleteOne`: one entry shorter, entries before the removed one unchanged, later ones shifted down by one |
| Tables.IndexesEmpty | controllers/userController.js:11 | a table is empty exactly when its order is, so `!users?.length` tests the table |
| Tables.AppendIndexes | controllers/noteController.js:44 | a create under a fresh id, appended to the order, keeps the order an exact index |
| Tables.WithoutIndexes | controllers/noteController.js:107 | a delete keeps the order an exact index of the remaining table |
| NoteModel.TicketOf | models/Note.js:29-34 | the k-th created note's ticket is at least 500 (start 500, step 1) |
| NoteModel.TicketsIncrease | models/Note.js:29-34 | a note created later has a strictly larger ticket, so tickets are distinct |
| NoteModel.TruthyIsRequired | controllers/noteController.js:30 | a field that passes the handler's truthiness test satisfies the schema's `required` |
| NoteModel.Create | models/Note.js:4-23 | the schema builds a document exactly when user, title and text are all present; it keeps those fields and the given ticket, and `completed` defaults to false |
| NoteModel.AppendKeepsTicketsAscending | models/Note.js:29-34 | a new note whose ticket exceeds every stored one keeps tickets rising in natural order |
| NoteModel.WithoutKeepsTicketsAscending | controllers/noteController.js:107 | deleting a note keeps tickets rising in natural order over what remains |
| NoteModel.SaveKeepsTicketsAscending | controllers/noteController.js:84 | saving a note with its ticket unchanged keeps tickets rising |
| UserModel.Conceal | controllers/userController.js:10 | `select('-password')`: the listed user keeps its id and every stored field except the hash, and adding the hash back gives the stored user |
| Database.InsertNoteOwners | controllers/noteController.js:41-44 | after a note is created, all owners resolve exactly when they did before and the new owner also resolves |
| Database.SaveNoteOwners | controllers/noteController.js:79-84 | after a note is saved in a store where all owners resolved, they all still resolve exactly when the saved note's owner does |
| Database.RemoveUserOwners | controllers/userController.js:98-109 | removing a user that no note names keeps all owners resolving |
| Database.InsertKeepsUsersValid | controllers/userController.js:29-41 | a user created under a fresh id, with a username no user has, keeps the users invariant |
| Database.SaveKeepsUsersValid | controllers/userController.js:68-83 | saving a user whose username no other user has keeps the users invariant |
| Database.RemoveKeepsUsersValid | controllers/userController.js:109 | deleting a user keeps the users invariant |
| Database.InsertKeepsNotesValid | controllers/noteController.js:35-44 | a conforming note with a fresh title and the counter's ticket, stored while the counter advances, keeps the notes invariant |
| Database.SaveKeepsNotesValid | controllers/noteController.js:72-84 | saving a conforming note with its ticket kept and a title no other note has keeps the notes invariant |
| Database.RemoveKeepsNotesValid | controllers/noteController.js:107 | deleting a note keeps the notes invariant, the counter included |
| Database.Store.constructor | models/Note.js:32 | an empty database whose counter starts at 500 |
| Database.Store.FindUserById | controllers/userController.js:61 | `User.findById`: the id exactly when the body value is a string naming a stored user |
| Database.Store.FindNoteById | controllers/noteController.js:65 | `Note.findById`: the id exactly when the body value is a string naming a stored note |
| Database.Store.FindUserByName | controllers/userController.js:68 | `User.findOne({ username })` compared by value equality: a user with that username, and None exactly when no user has it |
| Database.Store.FindNoteByTitle | controllers/noteController.js:72 | `Note.findOne({ title })` compared by value equality: a note with that title, and None exactly when no note has it |
| Database.Store.FindNoteByOwner | controllers/userController.js:98 | `Note.findOne({ user })` compared by value equality: a note owned by that value, and None exactly when no note is |
| Database.Store.InsertUser | controllers/userController.js:41 | `User.create`: the user is added under the fresh id, appended to the order; the invariant and resolving owners are kept |
| Database.Store.SaveUser | controllers/userController.js:83 | `user.save()`: exactly that record is replaced; the invariant is kept |
| Database.Store.RemoveUser | controllers/userController.js:109 | `user.deleteOne()`: exactly that key leaves the table and the order; owners keep resolving when no note named the user |
| Database.Store.InsertNote | controllers/noteController.js:44 | `Note.create`: it succeeds exactly when the schema accepts the fields; the document carries the old counter; the counter advances by one; a refusal changes nothing |
| Database.Store.SaveNote | controllers/noteController.js:84 | `note.save()`: exactly that record is replaced; the invariant is kept; owners keep resolving exactly when the saved owner resolves |
| Database.Store.RemoveNote | controllers/noteController.js:107 | `note.deleteOne()`: exactly that key leaves the table and the order; the counter is untouched |
| UserController.GetAllUsers | controllers/userController.js:9-15 | 404 exactly when there are no users; otherwise 200 with every user in natural order, each with its id and every stored field except the password hash |
| UserController.CreateNewUser | controllers/userController.js:20-48 | 400 and no change on a bad body; 409 and no change if any user has the username; 500 and no change when bcrypt rejects a non-string password; otherwise 201, and exactly one user is added with the body's username and roles and `hash(password, 10)` as its password |
| UserController.UpdateUser | controllers/userController.js:53-86 | 400 and no change on a bad body or an unknown id; 409 and no change only when a different user has the username; 500 and no change when bcrypt rejects a truthy non-string password; otherwise 200, and only that user changes: username, roles, active, and the hash only when a password is given |
| UserController.DeleteUser | controllers/userController.js:91-114 | 400 on a missing id; 400 if any note names the id, checked before existence; 400 on an unknown user; otherwise 200 naming the removed username and id, with exactly that user removed; owners keep resolving |
| NoteController.OwnerOf | controllers/noteController.js:16 | `User.findById(note.user)`: the owner exactly when the reference is a stored user's id |
| NoteController.JoinOwners | controllers/noteController.js:15-18 | a list exactly when every owner along the order resolves; it then has the same length and order, each note paired with its owner's username |
| NoteController.OwnersResolveAlongOrder | controllers/noteController.js:15-18 | over an exact index, every position's owner resolves exactly when every stored note's owner does |
| NoteController.GetAllNotes | controllers/noteController.js:8-21 | 404 exactly when there are no notes; 500 when some owner is missing; otherwise 200 with every note in natural order and its owner's username |
| NoteController.CreateNewNote | controllers/noteController.js:26-51 | 400 and no change on a bad body; 409 and no change if the title exists; otherwise 201, and exactly one note is added with `completed` false and the next ticket; owners resolve afterwards exactly when they did before and the new owner exists |
| NoteController.UpdateNote | controllers/noteController.js:56-87 | 400 and no change on a bad body or an unknown id; 409 and no change only when a different note has the title; otherwise 200, and only that note changes: user, title, text and completed, with its ticket kept |
| NoteController.DeleteNote | controllers/noteController.js:92-112 | 400 on a missing id or an unknown note; otherwise 200 naming the removed title and id, with exactly that note removed and the counter kept, so its ticket is never reused |

## Left out

- server.js is not part of this model: the Express wiring, CORS, cookies, static files and the 404 content negotiation are transport.
- bcrypt is the uninterpreted function `Store.hash`. Salting, the work factor and the real digest are not modelled. Only the salt-round constant 10 is kept. It takes strings only: a non-string password rejects the handler, which the model answers with 500 and no change.
- Database.Store.FindUserById, Database.Store.FindNoteById, Database.Store.FindUserByName, Database.Store.FindNoteByTitle, Database.Store.FindNoteByOwner: MongoDB query operators and Mongoose's array-to-`$in` translation are not modelled. In MongoDB an object- or array-valued body field used in a filter or in `findById` can match records that hold other values, such as `{ "$ne": null }` matching any record. These lookups match by value equality only, so the handlers' 400 and 409 replies, and which record a delete or update reaches, differ for such bodies.
- Mongoose casting is not modelled. A body id names a record only when it is the string of a stored id. Stored fields keep the request's JavaScript value, not the value cast to the schema type. A cast error, such as a malformed ObjectId sent to `findById`, is not modelled.
- `.lean()` and `.exec()` are not modelled. The auto-increment plugin's own counter collection is the store field `nextTicket`.
- The ids of new documents are chosen by Mongoose, which assigns `_id` when it builds the document. Here the create handlers take the id as a parameter, which must not be in use.
- Concurrency is not modelled: handlers run one at a time. The `Promise.all` owner lookups are a sequential join that keeps the notes' order. Check-then-act races between concurrent requests are not captured, so the uniqueness invariants hold only under sequential execution.
- The `createdAt`/`updatedAt` timestamps (they need a clock) and the `console.log` calls (side output) are left out.
- Reply wording is reduced to a tag with the values that go into the message. The bare-string replies of the delete handlers and of the note update are modelled like the other messages.
- models/User is not part of this model. Only the fields the handlers touch are kept: username, password hash, roles and active. Any schema default for `active` is therefore unknown, and `active` is unset until the first update.
- The 400 "Invalid ... data received" branches after `User.create` and `Note.create` are never taken. The create succeeds there: the user handler always builds a full user, and a body that passed the handler's truthiness tests satisfies the note schema. CreateNewNote proves this with an assertion.
- The error middleware's exact status and body are left out. A rejected handler promise becomes status 500 with an `InternalError` tag.
- The natural order of MongoDB is assumed to be insertion order. MongoDB does not guarantee it, so the order of the lists GetAllUsers and GetAllNotes return, the document `findOne` picks among several matches, and the rising tickets along the order (`TicketsAscend`) rest on this assumption.
- JavaScript numbers are reals. Floating-point rounding is not modelled.
- Stored validity is the schema's `required` check on the request's values. Type validation of fields, such as a non-string title, is not modelled.
- Database.Store.InsertUser, Database.Store.SaveUser, Database.Store.InsertNote, Database.Store.SaveNote: these require username or title uniqueness, which MongoDB does not check. Each handler establishes the requirement by its own `findOne` before it writes. The methods are therefore only the writes as those handlers make them.
