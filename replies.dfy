/** What a handler sends back: an HTTP status and either a message, named by
    a tag (the reply's wording is not modelled), or the listed documents. */
module Replies {
  import opened Js
  import opened Tables
  import opened NoteModel
  import opened UserModel

  datatype Tag =
    // the user handlers
    | NoUsersFound
    | AllFieldsRequired
    | UsernameExists
    | UserCreated(username: Value)
    | UserNotFound
    | DuplicateUsername
    | UserUpdated(username: Value)
    | UserIdRequired
    | UserHasNotes
    | UserDeleted(username: Value, id: Id)
    // the note handlers
    | NoNotesFound
    | TitleExists
    | NoteCreated(title: Value)
    | DuplicateTitle
    | NoteUpdated(title: Value)
    | NoteIdRequired
    | NoteNotFound
    | NoteDeleted(title: Value, id: Id)
    // an exception that the handler does not catch reaches the error middleware
    | InternalError

  /** A stored note extended with its owner's username, as the note list
      shows it (`{ ...note, username: user.username }`). */
  datatype NoteView = NoteView(id: Id, note: Note, username: Value)

  datatype Payload =
    | Message(tag: Tag)
    | UserList(users: seq<PublicUser>)
    | NoteList(notes: seq<NoteView>)

  datatype Response = Response(status: nat, payload: Payload)

  const Ok: nat := 200
  const Created: nat := 201
  const BadRequest: nat := 400
  const NotFound: nat := 404
  const Conflict: nat := 409
  const ServerError: nat := 500

  function Reply(status: nat, tag: Tag): Response {
    Response(status, Message(tag))
  }
}
