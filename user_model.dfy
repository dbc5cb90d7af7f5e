/** The fields of a stored user that the handlers read and write. The User
    schema itself is not part of this model. */
module UserModel {
  import opened Wrappers
  import opened Js
  import opened Tables

  /** A bcrypt hash. It is a type of its own, so a plaintext password can
      never be stored where a hash belongs. */
  datatype Digest = Digest(text: string)

  /** The cost factor the handlers pass to `bcrypt.hash`. */
  const SaltRounds: nat := 10

  /** `bcrypt.hash` hashes strings only; any other plaintext makes it
      reject. (A `Buffer`, which it also takes, is not a JSON value.) */
  predicate Hashable(v: Value) {
    v.Str?
  }

  /** A stored user. `active` is `None` until an update sets it: the create
      handler never writes it, and the schema's default is not modelled. */
  datatype User = User(username: Value, password: Digest, roles: seq<Value>, active: Option<bool>)

  /** A user as `select('-password')` returns it: every field but the hash. */
  datatype PublicUser = PublicUser(id: Id, username: Value, roles: seq<Value>, active: Option<bool>)

  /** Puts a hash back into a public view. */
  function WithPassword(p: PublicUser, password: Digest): User {
    User(p.username, password, p.roles, p.active)
  }

  /** The public view of the user stored under `id`. It drops exactly the
      password: putting the stored hash back gives the stored user again. */
  function Conceal(id: Id, u: User): (p: PublicUser)
    ensures p.id == id
    ensures WithPassword(p, u.password) == u
  {
    PublicUser(id, u.username, u.roles, u.active)
  }
}
